/**
 How the outcome of one archive test becomes the stored verdict
 (`process_file`): the encryption keyword test, the choice between success,
 encrypted, failure and "interrupted", and the guard that leaves missing and
 deleted records alone.
 */
module Verdict {
  import opened Text
  import opened Records

  /** Words in the tester's transcript that mark a password-protected archive. */
  const EncryptionKeywords: set<string> := {"password", "encrypted"}

  /** Some keyword occurs in the lower-cased transcript. */
  function IsEncrypted(output: string): (encrypted: bool)
    ensures encrypted <==>
      Contains(LowerString(output), "password") || Contains(LowerString(output), "encrypted")
  {
    assert "password" in EncryptionKeywords && "encrypted" in EncryptionKeywords;
    exists kw | kw in EncryptionKeywords :: Contains(LowerString(output), kw)
  }

  /**
   The verdict for a record from the tester's exit status, the keyword test
   and the termination flag; `None` when an interrupted run leaves it as is.
   */
  function Classify(returncode: int, encrypted: bool, exitFlag: bool): (verdict: Option<Result>)
    ensures returncode == 0 ==> verdict == Some(Success)
    ensures returncode != 0 && encrypted ==> verdict == Some(Encrypted)
    ensures returncode != 0 && !encrypted && !exitFlag ==> verdict == Some(Failure)
    ensures verdict == None <==> returncode != 0 && !encrypted && exitFlag
  {
    if returncode == 0 then Some(Success)
    else if encrypted then Some(Encrypted)
    else if !exitFlag then Some(Failure)
    else None
  }

  /** The store after the test of `path` ended with `returncode` and transcript `output`. */
  function ApplyVerdict(files: Files, path: string, returncode: int, output: string, exitFlag: bool): (updated: Files)
    ensures updated.Keys == files.Keys
    ensures forall p :: p in files && p != path ==> updated[p] == files[p]
    ensures path !in files || files[path].result == Deleted ==> updated == files
    ensures path in files && files[path].result != Deleted ==>
      && updated[path].timestamp == files[path].timestamp
      && (returncode == 0 ==> updated[path].result == Success)
      && (returncode != 0 && IsEncrypted(output) ==> updated[path].result == Encrypted)
      && (returncode != 0 && !IsEncrypted(output) && !exitFlag ==> updated[path].result == Failure)
      && (returncode != 0 && !IsEncrypted(output) && exitFlag ==> updated[path] == files[path])
  {
    if path in files && files[path].result != Deleted then
      match Classify(returncode, IsEncrypted(output), exitFlag)
      case Some(verdict) => files[path := files[path].(result := verdict)]
      case None => files
    else files
  }

  /** A zero exit status means success even when the transcript mentions a password. */
  lemma ExitZeroWinsOverKeywords(files: Files, path: string, output: string, exitFlag: bool)
    requires path in files && files[path].result != Deleted
    requires Contains(LowerString(output), "password")
    ensures IsEncrypted(output)
    ensures ApplyVerdict(files, path, 0, output, exitFlag)[path].result == Success
  {
    assert "password" in EncryptionKeywords;
  }

  /** The keyword test ignores case: "PASSWORD" and "Encrypted" are found. */
  lemma KeywordsIgnoreCase(prefix: string)
    requires NoUpper(prefix)
    ensures IsEncrypted(prefix + "Wrong PASSWORD")
    ensures IsEncrypted(prefix + "Encrypted archive")
  {
    var a := prefix + "Wrong PASSWORD";
    var b := prefix + "Encrypted archive";
    assert LowerString(a)[|prefix| + 6..|prefix| + 14] == "password";
    assert OccursAt(LowerString(a), "password", |prefix| + 6);
    assert "password" in EncryptionKeywords;
    assert LowerString(b)[|prefix|..|prefix| + 9] == "encrypted";
    assert OccursAt(LowerString(b), "encrypted", |prefix|);
    assert "encrypted" in EncryptionKeywords;
  }

  /** Only a verified verdict or nothing is written: no record ever becomes unchecked or deleted. */
  lemma ApplyWritesOnlyVerdicts(files: Files, path: string, returncode: int, output: string, exitFlag: bool)
    ensures var updated := ApplyVerdict(files, path, returncode, output, exitFlag);
      forall p :: p in files ==>
        updated[p] == files[p] || (updated[p].result in {Success, Encrypted, Failure} && files[p].result != Deleted)
  {
  }

  /** Applying the same outcome twice is applying it once. */
  lemma ApplyIdempotent(files: Files, path: string, returncode: int, output: string, exitFlag: bool)
    ensures var once := ApplyVerdict(files, path, returncode, output, exitFlag);
      ApplyVerdict(once, path, returncode, output, exitFlag) == once
  {
  }

  /**
   Outcomes for two different paths, applied one after the other, give the
   same store in either order.
   */
  lemma ApplyCommutes(files: Files, p1: string, rc1: int, out1: string, flag1: bool,
                       p2: string, rc2: int, out2: string, flag2: bool)
    requires p1 != p2
    ensures ApplyVerdict(ApplyVerdict(files, p1, rc1, out1, flag1), p2, rc2, out2, flag2)
         == ApplyVerdict(ApplyVerdict(files, p2, rc2, out2, flag2), p1, rc1, out1, flag1)
  {
  }
}
