/**
 * Input cleaning of a beacon string (`ParseDownlink._cleaninput` and
 * `ParseDownlink._validatehex`): case folding, removal of whitespace and of the
 * delimiter, validation against the hex alphabet, and the split into
 * two-character byte tokens.
 */
module Normaliser {

  import opened Wrappers
  import opened PyText

  const EmptyMessage: string := "\t\t  String is empty"
  const InvalidMessage: string := "\t\t  Invalid character found in string"

  /**
   * `hstr.lower().strip()` followed by deleting spaces, the delimiter (as given,
   * not lowered), tabs, carriage returns and line feeds, in that order.
   */
  function CleanText(hstr: string, dlim: string): string {
    RemoveAll(RemoveAll(RemoveAll(RemoveAll(RemoveAll(Strip(Lower(hstr)), " "), dlim), "\t"), "\r"), "\n")
  }

  /** A character `_validatehex` lets through: a hex digit or a character of the lowered delimiter. */
  predicate Admissible(c: char, dl: string) {
    IsHexDigit(c) || c in Lower(dl)
  }

  /** `_validatehex`: true exactly when some character is not admissible. */
  function ValidateHex(hstr: string, dl: string): (invalid: bool)
    ensures invalid <==> exists i :: 0 <= i < |hstr| && !Admissible(hstr[i], dl)
    decreases |hstr|
  {
    if |hstr| == 0 then false
    else
      var rest := ValidateHex(hstr[1..], dl);
      assert forall i :: 1 <= i < |hstr| ==> hstr[i] == hstr[1..][i - 1];
      !Admissible(hstr[0], dl) || rest
  }

  function Min(a: int, b: int): int {
    if a < b then a else b
  }

  /** `[s[i:i + 2] for i in range(0, len(s), 2)]`. */
  function Chunks2(s: string): (r: seq<string>)
    ensures |r| == (|s| + 1) / 2
    ensures forall k :: 0 <= k < |r| ==> r[k] == s[2 * k..Min(2 * k + 2, |s|)]
    decreases |s|
  {
    if |s| <= 2 then (if |s| == 0 then [] else [s])
    else
      var rest := Chunks2(s[2..]);
      assert forall k :: 1 <= k < |rest| + 1 ==> rest[k - 1] == s[2 * k..Min(2 * k + 2, |s|)];
      [s[..2]] + rest
  }

  /** Joining the tokens gives back the string they were cut from. */
  lemma {:induction false} ChunksConcat(s: string)
    ensures Concat(Chunks2(s)) == s
    decreases |s|
  {
    if |s| > 2 {
      ChunksConcat(s[2..]);
      ConcatAppend([s[..2]], Chunks2(s[2..]));
      assert Concat([s[..2]]) == Concat([]) + s[..2];
    } else if |s| > 0 {
      assert Concat([s]) == Concat([]) + s;
    }
  }

  /** Cutting a join of two-character pieces gives the pieces back. */
  lemma {:induction false} ChunksOfPairs(parts: seq<string>)
    requires forall k :: 0 <= k < |parts| ==> |parts[k]| == 2
    ensures Chunks2(Concat(parts)) == parts
    decreases |parts|
  {
    if |parts| > 0 {
      var rest := parts[1..];
      ConcatAppend([parts[0]], rest);
      assert [parts[0]] + rest == parts;
      assert Concat([parts[0]]) == Concat([]) + parts[0];
      ChunksOfPairs(rest);
      var s := Concat(parts);
      assert s[..2] == parts[0] && s[2..] == Concat(rest);
    }
  }

  /**
   * `_cleaninput`: an empty cleaned string and a string with a character outside
   * the hex alphabet and the lowered delimiter are rejected with their messages;
   * any other string is returned as its run of two-character tokens (the last
   * one a single character when the length is odd), which join back to it.
   */
  function CleanInput(hstr: string, dlim: string): (r: (seq<string>, string))
    ensures var cleaned := CleanText(hstr, dlim);
      && (|cleaned| == 0 ==> r == ([], EmptyMessage))
      && (|cleaned| > 0 && (exists i :: 0 <= i < |cleaned| && !Admissible(cleaned[i], dlim)) ==> r == ([], InvalidMessage))
      && (|cleaned| > 0 && (forall i :: 0 <= i < |cleaned| ==> Admissible(cleaned[i], dlim)) ==>
            && r.1 == ""
            && Concat(r.0) == cleaned
            && |r.0| == (|cleaned| + 1) / 2
            && (forall k :: 0 <= k < |r.0| - 1 ==> |r.0[k]| == 2)
            && |r.0[|r.0| - 1]| == 2 - |cleaned| % 2)
  {
    var cleaned := CleanText(hstr, dlim);
    if |cleaned| == 0 then ([], EmptyMessage)
    else if ValidateHex(cleaned, dlim) then ([], InvalidMessage)
    else
      ChunksShape(cleaned);
      (Chunks2(cleaned), "")
  }

  lemma HalfUp(n: nat)
    ensures 2 * ((n + 1) / 2) == n + n % 2
  {
  }

  /** The tokens of a non-empty string: all of two characters but a possibly shorter last one. */
  lemma ChunksShape(s: string)
    requires |s| > 0
    ensures var r := Chunks2(s);
      && Concat(r) == s
      && |r| == (|s| + 1) / 2
      && (forall k :: 0 <= k < |r| - 1 ==> |r[k]| == 2)
      && |r[|r| - 1]| == 2 - |s| % 2
  {
    ChunksConcat(s);
    var r := Chunks2(s);
    var n := |s|;
    var last := |r| - 1;
    HalfUp(n);
    assert |r| == (n + 1) / 2;
    assert 2 * last + 2 - n % 2 == n;
    forall k | 0 <= k < last
      ensures |r[k]| == 2
    {
      assert r[k] == s[2 * k..Min(2 * k + 2, n)];
      assert 2 * k + 2 <= n;
    }
    assert r[last] == s[2 * last..Min(2 * last + 2, n)];
  }

  /** A token that is one byte: exactly two lower-case hex digits. */
  predicate IsByteToken(t: string) {
    |t| == 2 && AllHex(t)
  }

  /** The tokens are empty exactly when an error message is returned. */
  lemma CleanInputSignalsFailure(hstr: string, dlim: string)
    ensures CleanInput(hstr, dlim).0 == [] <==> CleanInput(hstr, dlim).1 != ""
  {
  }

  /**
   * Every character of every token is admissible; when the cleaned string has
   * only hex digits and even length, every token is a byte.
   */
  lemma TokensAdmissible(hstr: string, dlim: string)
    ensures var tokens := CleanInput(hstr, dlim).0;
      forall k, j :: 0 <= k < |tokens| && 0 <= j < |tokens[k]| ==> Admissible(tokens[k][j], dlim)
    ensures var cleaned := CleanText(hstr, dlim);
      AllHex(cleaned) && |cleaned| % 2 == 0 ==>
        forall k :: 0 <= k < |CleanInput(hstr, dlim).0| ==> IsByteToken(CleanInput(hstr, dlim).0[k])
  {
    var cleaned := CleanText(hstr, dlim);
    var tokens := CleanInput(hstr, dlim).0;
    if tokens != [] {
      forall k, j | 0 <= k < |tokens| && 0 <= j < |tokens[k]|
        ensures Admissible(tokens[k][j], dlim)
      {
        assert tokens[k][j] == cleaned[2 * k + j];
      }
    }
  }

  /** A single character of a multi-character delimiter is not removed, yet passes validation. */
  lemma DelimiterCharacterSurvives()
    ensures CleanInput("a,b", ",,") == (["a,", "b"], "")
  {
    var s := "a,b";
    CleanTextOfExample();
    assert !ValidateHex(s, ",,") by {
      assert Lower(",,") == ",,";
      assert forall i :: 0 <= i < |s| ==> Admissible(s[i], ",,");
    }
    ChunksOfExample();
    assert CleanInput(s, ",,").0 == Chunks2(s);
  }

  lemma CleanTextOfExample()
    ensures CleanText("a,b", ",,") == "a,b"
  {
    var s := "a,b";
    assert Lower(s) == s;
    assert TrimStart(s) == s && TrimEnd(s) == s;
    assert Strip(s) == s;
    RemovalsOfExample(" ");
    RemovalsOfExample(",,");
    RemovalsOfExample("\t");
    RemovalsOfExample("\r");
    RemovalsOfExample("\n");
  }

  lemma RemovalsOfExample(pat: string)
    requires pat in {" ", ",,", "\t", "\r", "\n"}
    ensures RemoveAll("a,b", pat) == "a,b"
  {
    var s := "a,b";
    assert RemoveAll("b", pat) == "b";
    assert RemoveAll(",b", pat) == [','] + RemoveAll("b", pat);
    assert RemoveAll(s, pat) == ['a'] + RemoveAll(",b", pat);
  }

  lemma ChunksOfExample()
    ensures Chunks2("a,b") == ["a,", "b"]
  {
    var s := "a,b";
    assert Chunks2(s) == [s[..2]] + Chunks2(s[2..]);
    assert s[2..] == "b" && s[..2] == "a,";
    assert Chunks2("b") == ["b"];
  }

}
