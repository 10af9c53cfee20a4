/**
  The attachment check of main.py (`has_malicious_attachments`): a
  case-sensitive suffix match of every file name against a fixed list of
  executable and script extensions.
 */
module Attachments {
  import opened Text

  /** The ten extensions the check refuses, in the order main.py lists them. */
  const MaliciousExtensions: seq<string> :=
    [".exe", ".bat", ".cmd", ".scr", ".pif", ".js", ".vbs", ".wsf", ".cpl", ".jar"]

  /** `any(name.endswith(ext) for ext in extensions)`. */
  function EndsWithAny(name: string, extensions: seq<string>): (r: bool)
    ensures r <==> exists k | 0 <= k < |extensions| :: EndsWith(name, extensions[k])
  {
    if |extensions| == 0 then false
    else if EndsWith(name, extensions[0]) then true
    else
      assert forall k | 1 <= k < |extensions| :: extensions[k] == extensions[1..][k - 1];
      EndsWithAny(name, extensions[1..])
  }

  /** `has_malicious_attachments`: some attachment ends with a refused extension. */
  function HasMaliciousAttachments(attachments: seq<string>): (r: bool)
    ensures r <==> exists i, k | 0 <= i < |attachments| && 0 <= k < |MaliciousExtensions| ::
                     EndsWith(attachments[i], MaliciousExtensions[k])
    ensures |attachments| == 0 ==> !r
  {
    if |attachments| == 0 then false
    else if EndsWithAny(attachments[0], MaliciousExtensions) then true
    else
      assert forall i | 1 <= i < |attachments| :: attachments[i] == attachments[1..][i - 1];
      HasMaliciousAttachments(attachments[1..])
  }

  /** A file named with a refused extension is flagged, wherever it sits in the list. */
  lemma RefusedExtensionFlagged(before: seq<string>, base: string, k: nat, after: seq<string>)
    requires k < |MaliciousExtensions|
    ensures HasMaliciousAttachments(before + [base + MaliciousExtensions[k]] + after)
  {
    var atts := before + [base + MaliciousExtensions[k]] + after;
    assert atts[|before|] == base + MaliciousExtensions[k];
    EndsWithAppend(base, MaliciousExtensions[k], MaliciousExtensions[k]);
  }

  /**
    Once a name ends with `tail`, whether it is refused depends only on `tail`
    when `tail` is at least four characters long.
   */
  lemma DecidedByTail(base: string, tail: string)
    requires |tail| >= 4
    ensures EndsWithAny(base + tail, MaliciousExtensions) == EndsWithAny(tail, MaliciousExtensions)
  {
    forall k | 0 <= k < |MaliciousExtensions|
      ensures EndsWith(base + tail, MaliciousExtensions[k]) == EndsWith(tail, MaliciousExtensions[k])
    {
      EndsWithAppend(base, tail, MaliciousExtensions[k]);
    }
  }

  /** The match is case-sensitive: a name ending in `.EXE` is not flagged. */
  lemma UpperCaseNotFlagged(base: string)
    ensures !HasMaliciousAttachments([base + ".EXE"])
  {
    DecidedByTail(base, ".EXE");
    UpperCaseExtensionNotRefused();
    assert [base + ".EXE"][0] == base + ".EXE";
  }

  lemma UpperCaseExtensionNotRefused()
    ensures !EndsWithAny(".EXE", MaliciousExtensions)
  {
    ExtensionsEndInLowerCase();
    assert forall k | 0 <= k < |MaliciousExtensions| :: !EndsWith(".EXE", MaliciousExtensions[k]);
  }

  /** Every refused extension ends in a lower-case letter. */
  lemma ExtensionsEndInLowerCase()
    ensures forall k | 0 <= k < |MaliciousExtensions| ::
      |MaliciousExtensions[k]| > 0 && 'a' <= MaliciousExtensions[k][|MaliciousExtensions[k]| - 1] <= 'z'
  {
  }

  /** A list is flagged exactly when one of its single files is. */
  lemma FlaggedIffSomeFileFlagged(attachments: seq<string>)
    ensures HasMaliciousAttachments(attachments)
        <==> exists i | 0 <= i < |attachments| :: HasMaliciousAttachments([attachments[i]])
  {
    forall i | 0 <= i < |attachments|
      ensures HasMaliciousAttachments([attachments[i]]) == EndsWithAny(attachments[i], MaliciousExtensions)
    {
    }
  }
}
