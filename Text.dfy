/** The string operations the views rely on: Python's `str.split(',')`,
    the comma join the update form builds, the ASCII case-insensitive
    comparisons behind the ORM lookups `icontains` and `iexact`, and
    Python's `str.strip()`, which the form applies to the tag field. */
module Text {

  // ---------------------------------------------------------------------
  // Case-insensitive comparison (ASCII only)
  // ---------------------------------------------------------------------

  function LowerChar(c: char): (r: char)
    ensures 'A' <= c <= 'Z' ==> 'a' <= r <= 'z'
    ensures !('A' <= c <= 'Z') ==> r == c
  {
    if 'A' <= c <= 'Z' then (c as int + 32) as char else c
  }

  function Lower(s: string): (r: string)
    ensures |r| == |s|
    ensures forall i :: 0 <= i < |s| ==> r[i] == LowerChar(s[i])
  {
    if s == [] then [] else [LowerChar(s[0])] + Lower(s[1..])
  }

  /** `sub` occurs in `s` as a contiguous piece. */
  predicate Contains(s: string, sub: string)
  {
    exists i :: 0 <= i <= |s| - |sub| && OccursAt(s, sub, i)
  }

  predicate OccursAt(s: string, sub: string, i: int)
  {
    0 <= i <= |s| - |sub| && s[i..i + |sub|] == sub
  }

  /** The `icontains` lookup: substring after lowering both sides. */
  predicate IContains(s: string, q: string)
  {
    Contains(Lower(s), Lower(q))
  }

  /** The `iexact` lookup: equality after lowering both sides. */
  predicate IExact(s: string, q: string)
  {
    Lower(s) == Lower(q)
  }

  /** A substring match is not an exact match: "rustlang" contains "rust"
      and is not equal to it. */
  lemma IContainsNotIExact()
    ensures IContains("rustlang", "rust") && !IExact("rustlang", "rust")
  {
    assert OccursAt(Lower("rustlang"), Lower("rust"), 0);
    assert |Lower("rustlang")| != |Lower("rust")|;
  }

  // ---------------------------------------------------------------------
  // Python's str.split(',') and the comma join
  // ---------------------------------------------------------------------

  /** Index of the first comma of `s`, or |s| when there is none. */
  function FirstComma(s: string): (i: nat)
    ensures i <= |s|
    ensures forall k :: 0 <= k < i ==> s[k] != ','
    ensures i < |s| ==> s[i] == ','
  {
    if s == [] || s[0] == ',' then 0 else 1 + FirstComma(s[1..])
  }

  /** `s.split(',')`: always at least one fragment, none holding a comma;
      empty fragments stand where commas are leading, trailing or doubled. */
  function Split(s: string): (r: seq<string>)
    ensures |r| >= 1
    ensures forall k :: 0 <= k < |r| ==> ',' !in r[k]
    decreases |s|
  {
    var i := FirstComma(s);
    if i == |s| then [s] else [s[..i]] + Split(s[i + 1..])
  }

  /** `','.join(ts)`: the fragments with one comma between neighbours. */
  function Join(ts: seq<string>): string
  {
    if |ts| == 0 then ""
    else if |ts| == 1 then ts[0]
    else ts[0] + "," + Join(ts[1..])
  }

  /** A join of non-empty pieces starts with the first piece's first
      character and ends with the last piece's last character. */
  lemma {:induction false} JoinEnds(ts: seq<string>)
    requires |ts| >= 1
    requires forall k :: 0 <= k < |ts| ==> ts[k] != ""
    ensures |Join(ts)| > 0
    ensures Join(ts)[0] == ts[0][0]
    ensures Join(ts)[|Join(ts)| - 1] == ts[|ts| - 1][|ts[|ts| - 1]| - 1]
  {
    if |ts| > 1 {
      JoinEnds(ts[1..]);
      assert Join(ts) == ts[0] + "," + Join(ts[1..]);
    }
  }

  /** A character other than the comma that no piece holds is not in their
      join. */
  lemma {:induction false} JoinAvoids(ts: seq<string>, c: char)
    requires c != ','
    requires forall k :: 0 <= k < |ts| ==> c !in ts[k]
    ensures c !in Join(ts)
  {
    if |ts| > 1 {
      JoinAvoids(ts[1..], c);
      assert Join(ts) == ts[0] + "," + Join(ts[1..]);
    }
  }

  /** Joining the fragments of a split gives the original string back. */
  lemma {:induction false} JoinSplit(s: string)
    ensures Join(Split(s)) == s
    decreases |s|
  {
    var i := FirstComma(s);
    if i < |s| {
      var rest := s[i + 1..];
      JoinSplit(rest);
      assert Split(s) == [s[..i]] + Split(rest);
      assert s == s[..i] + "," + rest;
    }
  }

  /** Splitting a join of comma-free pieces gives the pieces back. */
  lemma {:induction false} SplitJoin(ts: seq<string>)
    requires |ts| >= 1
    requires forall k :: 0 <= k < |ts| ==> ',' !in ts[k]
    ensures Split(Join(ts)) == ts
  {
    if |ts| == 1 {
      CommaFreeHasNoComma(ts[0]);
    } else {
      var s := Join(ts);
      assert s == ts[0] + "," + Join(ts[1..]);
      CommaFreePrefix(ts[0], Join(ts[1..]));
      assert s[..|ts[0]|] == ts[0];
      assert s[|ts[0]| + 1..] == Join(ts[1..]);
      SplitJoin(ts[1..]);
    }
  }

  lemma CommaFreeHasNoComma(t: string)
    requires ',' !in t
    ensures FirstComma(t) == |t|
  {
  }

  lemma CommaFreePrefix(t: string, rest: string)
    requires ',' !in t
    ensures FirstComma(t + "," + rest) == |t|
  {
    var s := t + "," + rest;
    assert s[|t|] == ',';
    assert forall k :: 0 <= k < |t| ==> s[k] == t[k] && t[k] in t;
  }

  // ---------------------------------------------------------------------
  // Python's str.strip(), applied by Django's CharField when cleaning
  // ---------------------------------------------------------------------

  /** The characters Python's `str.isspace` accepts. */
  predicate IsSpace(c: char)
  {
    '\t' <= c <= '\r' || '\U{1C}' <= c <= ' ' || c == '\U{85}' || c == '\U{A0}'
    || c == '\U{1680}' || '\U{2000}' <= c <= '\U{200A}' || c == '\U{2028}' || c == '\U{2029}'
    || c == '\U{202F}' || c == '\U{205F}' || c == '\U{3000}'
  }

  /** Neither starts nor ends with whitespace. */
  predicate Unpadded(s: string)
  {
    s == [] || (!IsSpace(s[0]) && !IsSpace(s[|s| - 1]))
  }

  /** Every character is whitespace. */
  predicate AllSpace(s: string)
  {
    forall k :: 0 <= k < |s| ==> IsSpace(s[k])
  }

  /** Index of the first character at or after `i` that is not whitespace,
      or |s| when there is none. */
  function SkipSpaces(s: string, i: nat): (n: nat)
    requires i <= |s|
    ensures i <= n <= |s|
    ensures forall k :: i <= k < n ==> IsSpace(s[k])
    ensures n < |s| ==> !IsSpace(s[n])
    decreases |s| - i
  {
    if i < |s| && IsSpace(s[i]) then SkipSpaces(s, i + 1) else i
  }

  /** Index just after the last character before `j` that is not
      whitespace, or 0 when there is none. */
  function SkipSpacesBack(s: string, j: nat): (n: nat)
    requires j <= |s|
    ensures n <= j
    ensures forall k :: n <= k < j ==> IsSpace(s[k])
    ensures n > 0 ==> !IsSpace(s[n - 1])
  {
    if j > 0 && IsSpace(s[j - 1]) then SkipSpacesBack(s, j - 1) else j
  }

  /** Drops the leading whitespace: what is left is a suffix of `s`, after
      whitespace only. */
  function TrimStart(s: string): (r: string)
    ensures r == [] || !IsSpace(r[0])
    ensures |r| <= |s| && r == s[|s| - |r|..]
    ensures AllSpace(s[..|s| - |r|])
  {
    s[SkipSpaces(s, 0)..]
  }

  /** Drops the trailing whitespace: what is left is a prefix of `s`, before
      whitespace only. */
  function TrimEnd(s: string): (r: string)
    ensures r == [] || !IsSpace(r[|r| - 1])
    ensures |r| <= |s| && r == s[..|r|]
    ensures AllSpace(s[|r|..])
  {
    s[..SkipSpacesBack(s, |s|)]
  }

  /** `s.strip()`: the result is unpadded and no longer than `s`. */
  function Strip(s: string): (r: string)
    ensures Unpadded(r)
    ensures |r| <= |s|
  {
    TrimEnd(TrimStart(s))
  }

  /** What `s.strip()` keeps is `s` with a run of whitespace cut off at each
      end. */
  lemma StripCutsWhitespace(s: string)
    ensures exists i ::
              (0 <= i <= |s| - |Strip(s)| && s[i..i + |Strip(s)|] == Strip(s)
               && AllSpace(s[..i]) && AllSpace(s[i + |Strip(s)|..]))
  {
    var t := TrimStart(s);
    assert Strip(s) == TrimEnd(t);
    CutAtBothEnds(s, t, Strip(s));
  }

  /** When `t` is what is left of `s` after leading whitespace and `r` what
      is left of `t` before trailing whitespace, `r` sits in `s` between two
      runs of whitespace. */
  lemma CutAtBothEnds(s: string, t: string, r: string)
    requires |t| <= |s| && t == s[|s| - |t|..] && AllSpace(s[..|s| - |t|])
    requires |r| <= |t| && r == t[..|r|] && AllSpace(t[|r|..])
    ensures exists i ::
              (0 <= i <= |s| - |r| && s[i..i + |r|] == r
               && AllSpace(s[..i]) && AllSpace(s[i + |r|..]))
  {
    var i := |s| - |t|;
    assert s[i..i + |r|] == t[..|r|];
    assert s[i + |r|..] == t[|r|..];
  }

  /** Stripping an unpadded string leaves it as it is. */
  lemma StripUnpadded(s: string)
    requires Unpadded(s)
    ensures Strip(s) == s
  {
  }
}
