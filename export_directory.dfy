/**
 * GitExporter::checkExportDirectory: when the export directory already
 * exists the user is asked whether to remove it; only an answer that is "y"
 * or "yes" once trimmed and lower-cased lets the export go on, after a
 * recursive removal that must have made the directory disappear. The
 * filesystem probes and the console are outside the model: whether the
 * directory is present (before and after the removal) and the line the user
 * typed are inputs.
 */
module ExportDirectory {
  import opened Php

  /** `in_array(strtolower(trim($answer)), array('y', 'yes'))`. */
  predicate ConfirmsDeletion(answer: string) {
    var a := ToLower(Trim(answer));
    a == "y" || a == "yes"
  }

  /**
   * The accepted answers: after trimming, exactly "y" or "yes" in any mix of
   * upper and lower case.
   */
  lemma ConfirmsDeletionIff(answer: string)
    ensures var t := Trim(answer);
      ConfirmsDeletion(answer) <==>
        || (|t| == 1 && t[0] in "yY")
        || (|t| == 3 && t[0] in "yY" && t[1] in "eE" && t[2] in "sS")
  {
    AcceptedWord(Trim(answer));
  }

  /** "y" or "yes" once lower-cased: those letters, each in either case. */
  lemma AcceptedWord(t: string)
    ensures var a := ToLower(t);
      (a == "y" || a == "yes") <==>
        || (|t| == 1 && t[0] in "yY")
        || (|t| == 3 && t[0] in "yY" && t[1] in "eE" && t[2] in "sS")
  {
    var a := ToLower(t);
    if |t| == 1 {
      LowerCharIs(t[0], 'y', 'Y');
      assert a == "y" <==> a[0] == 'y';
    } else if |t| == 3 {
      LowerCharIs(t[0], 'y', 'Y');
      LowerCharIs(t[1], 'e', 'E');
      LowerCharIs(t[2], 's', 'S');
      assert a == "yes" <==> a[0] == 'y' && a[1] == 'e' && a[2] == 's';
    }
  }

  /** A letter's two cases are exactly the characters lower-cased to it. */
  lemma LowerCharIs(c: char, lower: char, upper: char)
    requires 'a' <= lower <= 'z' && upper as int == lower as int - 'a' as int + 'A' as int
    ensures LowerChar(c) == lower <==> c == lower || c == upper
  {
  }

  /**
   * Blanks around the answer (the line feed `fgets` keeps, spaces, tabs) do
   * not matter.
   */
  lemma ConfirmsDeletionPadded(pre: string, word: string, post: string)
    requires AllTrimmed(pre) && AllTrimmed(post)
    requires word == [] || (!IsTrimmed(word[0]) && !IsTrimmed(word[|word| - 1]))
    ensures ConfirmsDeletion(pre + word + post) <==> ConfirmsDeletion(word)
  {
    TrimPadded(pre, word, post);
    TrimPadded([], word, []);
    assert [] + word + [] == word;
  }

  /** What the check of the export directory ends in. */
  datatype DirectoryCheck =
    | Absent        // nothing to remove
    | Declined      // the user did not confirm: nothing removed
    | Removed       // confirmed, removed, and gone
    | StillPresent  // confirmed and removed, yet still readable

  /**
   * The decision, given whether the directory is present, the user's answer
   * and whether it is still present after `rm -rf`.
   */
  function CheckExportDirectory(present: bool, answer: string, presentAfterRemoval: bool): (r: DirectoryCheck)
    ensures r == Absent <==> !present
    ensures r == Declined <==> present && !ConfirmsDeletion(answer)
    ensures r == Removed <==> present && ConfirmsDeletion(answer) && !presentAfterRemoval
    ensures Proceeds(r) <==> !present || (ConfirmsDeletion(answer) && !presentAfterRemoval)
    ensures RemovalRuns(r) <==> present && ConfirmsDeletion(answer)
  {
    if present then
      if !ConfirmsDeletion(answer) then Declined
      else if presentAfterRemoval then StillPresent
      else Removed
    else Absent
  }

  /** The export goes on when there was nothing to remove or the removal worked. */
  predicate Proceeds(r: DirectoryCheck) {
    r == Absent || r == Removed
  }

  /** The removal command runs only after the user confirmed. */
  predicate RemovalRuns(r: DirectoryCheck) {
    r == Removed || r == StillPresent
  }
}
