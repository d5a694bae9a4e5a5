/**
  The guards in front of `os.remove`: deletion by match number (the end of
  `search` in searcher_no_GUI_faster.py and of `search_file` in
  searcher_no_GUI.py, which are the same code) and `delete_by_path`. The
  answers typed at the prompts are parameters; the result says which single
  removal, if any, the program then attempts.
 */
module DeletionGate {
  import opened Text
  import opened Paths

  /** What happens after the "Enter number" prompt. */
  datatype Decision =
    | NoChoice          // "No files deleted."
    | Invalid           // "Invalid selection."
    | Declined          // "File not deleted."
    | Remove(path: Path) // os.remove(path) is attempted

  /** `input(...).strip().lower() == "y"`. */
  predicate Confirmed(answer: string) {
    Lower(Strip(answer)) == "y"
  }

  /** Only a lone "y" or "Y", surrounded by any whitespace, confirms. */
  lemma ConfirmedIff(answer: string)
    ensures Confirmed(answer) <==> Strip(answer) == "y" || Strip(answer) == "Y"
  {
    var s := Strip(answer);
    if Confirmed(answer) {
      assert Lower(s)[0] == 'y';
      assert |s| == 1 && LowerChar(s[0]) == 'y';
      assert s == [s[0]];
    }
  }

  function DecideByIndex(matches: seq<Path>, rawChoice: string, answer: string): (d: Decision)
    ensures d == NoChoice <==> Strip(rawChoice) == []
    ensures d == Invalid <==>
      Strip(rawChoice) != [] && (!IsDigits(Strip(rawChoice)) || !(1 <= ParseNat(Strip(rawChoice)) <= |matches|))
    ensures d.Remove? ==> d.path in matches && Confirmed(answer)
  {
    var choice := Strip(rawChoice);
    if choice == [] then NoChoice
    else if !IsDigits(choice) || !(1 <= ParseNat(choice) <= |matches|) then Invalid
    else if Confirmed(answer) then Remove(matches[ParseNat(choice) - 1])
    else Declined
  }

  /** A removal is attempted exactly when the stripped choice is a decimal
      number k in 1..len(matches) and the answer confirms; it targets
      matches[k-1]. */
  lemma RemovalIff(matches: seq<Path>, rawChoice: string, answer: string, p: Path)
    ensures DecideByIndex(matches, rawChoice, answer) == Remove(p) <==>
      && IsDigits(Strip(rawChoice))
      && 1 <= ParseNat(Strip(rawChoice)) <= |matches|
      && p == matches[ParseNat(Strip(rawChoice)) - 1]
      && Confirmed(answer)
  {
  }

  lemma {:induction false} TrimStartAllDropped(pre: string, rest: string, drop: char -> bool)
    requires forall k :: 0 <= k < |pre| ==> drop(pre[k])
    ensures TrimStart(pre + rest, drop) == TrimStart(rest, drop)
    decreases |pre|
  {
    if pre != [] {
      assert (pre + rest)[1..] == pre[1..] + rest;
      TrimStartAllDropped(pre[1..], rest, drop);
    } else {
      assert pre + rest == rest;
    }
  }

  lemma {:induction false} TrimEndAllDropped(rest: string, post: string, drop: char -> bool)
    requires forall k :: 0 <= k < |post| ==> drop(post[k])
    ensures TrimEnd(rest + post, drop) == TrimEnd(rest, drop)
    decreases |post|
  {
    if post != [] {
      var post' := post[..|post| - 1];
      assert (rest + post)[..|rest + post| - 1] == rest + post';
      TrimEndAllDropped(rest, post', drop);
    } else {
      assert rest + post == rest;
    }
  }

  /** Stripping removes exactly a droppable padding around a core that
      neither starts nor ends with a droppable character. */
  lemma StripPadding(pre: string, core: string, post: string, drop: char -> bool)
    requires forall k :: 0 <= k < |pre| ==> drop(pre[k])
    requires forall k :: 0 <= k < |post| ==> drop(post[k])
    requires core == [] || (!drop(core[0]) && !drop(core[|core| - 1]))
    ensures StripBy(pre + core + post, drop) == core
  {
    assert pre + core + post == pre + (core + post);
    TrimStartAllDropped(pre, core + post, drop);
    if core == [] {
      assert core + post == post;
      TrimStartAllDropped(post, [], drop);
      assert post + [] == post;
    } else {
      assert (core + post)[0] == core[0];
    }
    TrimEndAllDropped(core, [], drop);
    assert core + [] == core;
    TrimEndAllDropped(core, post, drop);
  }

  /** Typing the number k of an existing match selects matches[k-1]; the
      answer alone then decides between removing it and keeping it. */
  lemma SelectByNumber(matches: seq<Path>, k: nat, answer: string)
    requires 1 <= k <= |matches|
    ensures DecideByIndex(matches, DecimalString(k), answer) ==
      if Confirmed(answer) then Remove(matches[k - 1]) else Declined
  {
    var s := DecimalString(k);
    ParseDecimalString(k);
    StripPadding([], s, [], IsSpace);
    assert [] + s + [] == s;
  }

  /** Out-of-range numbers, 0 and len(matches)+1, never lead to a removal. */
  lemma OutOfRangeIsInvalid(matches: seq<Path>, answer: string)
    ensures DecideByIndex(matches, "0", answer) == Invalid
    ensures DecideByIndex(matches, DecimalString(|matches| + 1), answer) == Invalid
  {
    ParseDecimalString(0);
    ParseDecimalString(|matches| + 1);
    StripPadding([], "0", [], IsSpace);
    assert [] + "0" + [] == "0";
    var s := DecimalString(|matches| + 1);
    StripPadding([], s, [], IsSpace);
    assert [] + s + [] == s;
  }

  /** Pressing Enter (or typing only blanks) deletes nothing. */
  lemma BlankChoiceDeletesNothing(matches: seq<Path>, rawChoice: string, answer: string)
    requires forall k :: 0 <= k < |rawChoice| ==> IsSpace(rawChoice[k])
    ensures DecideByIndex(matches, rawChoice, answer) == NoChoice
  {
    StripPadding(rawChoice, [], [], IsSpace);
    assert rawChoice + [] + [] == rawChoice;
  }

  predicate IsQuote(c: char) {
    c == '"'
  }

  /** `input(...).strip().strip('"')`. */
  function CleanPath(raw: string): Path {
    StripBy(Strip(raw), IsQuote)
  }

  /** A path pasted with its surrounding quotes and blanks is recovered exactly. */
  lemma QuotedPathRoundTrip(path: Path, lead: string, trail: string)
    requires forall k :: 0 <= k < |lead| ==> IsSpace(lead[k])
    requires forall k :: 0 <= k < |trail| ==> IsSpace(trail[k])
    requires path == [] || (path[0] != '"' && path[|path| - 1] != '"')
    ensures CleanPath(lead + "\"" + path + "\"" + trail) == path
  {
    var quoted := "\"" + path + "\"";
    assert lead + "\"" + path + "\"" + trail == lead + quoted + trail;
    StripPadding(lead, quoted, trail, IsSpace);
    StripPadding("\"", path, "\"", IsQuote);
  }

  /** What `delete_by_path` does. */
  datatype PathDecision =
    | NotAFile(path: Path)   // "File not found or invalid path."
    | PathDeclined           // "File not deleted."
    | RemovePath(path: Path) // os.remove(path) is attempted

  /** `isFile` is the host's `os.path.isfile`. */
  function DecideByPath(rawPath: string, isFile: Path -> bool, answer: string): (d: PathDecision)
    ensures d.RemovePath? ==> isFile(d.path) && Confirmed(answer)
  {
    var path := CleanPath(rawPath);
    if !isFile(path) then NotAFile(path)
    else if Confirmed(answer) then RemovePath(path)
    else PathDeclined
  }

  /** `delete_by_path` removes exactly the cleaned path, and only when it
      names an existing regular file and the answer confirms. */
  lemma PathRemovalIff(rawPath: string, isFile: Path -> bool, answer: string, p: Path)
    ensures DecideByPath(rawPath, isFile, answer) == RemovePath(p) <==>
      p == CleanPath(rawPath) && isFile(p) && Confirmed(answer)
    ensures var r := CleanPath(rawPath); r == [] || (r[0] != '"' && r[|r| - 1] != '"')
  {
    StripByTrimmed(Strip(rawPath), IsQuote);
  }
}
