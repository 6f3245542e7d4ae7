/** The string helpers of Python's `str` that the parser relies on:
    `rstrip(chars)` and `lstrip(chars)` (character-set strips) and a search
    for the first character out of a set. */
module Text {

  /** `s.rstrip(chars)`: drops the longest trailing run of characters that all
      belong to `chars`. The result is a prefix of `s`, it does not end in a
      character of `chars`, and everything cut off belongs to `chars`. */
  function RStrip(s: string, chars: set<char>): (r: string)
    ensures r <= s
    ensures r == [] || r[|r| - 1] !in chars
    ensures forall i :: |r| <= i < |s| ==> s[i] in chars
    decreases |s|
  {
    if s != [] && s[|s| - 1] in chars then RStrip(s[..|s| - 1], chars) else s
  }

  /** `s.lstrip(chars)`: drops the longest leading run of characters that all
      belong to `chars`. */
  function LStrip(s: string, chars: set<char>): (r: string)
    ensures |r| <= |s| && r == s[|s| - |r|..]
    ensures r == [] || r[0] !in chars
    ensures forall i :: 0 <= i < |s| - |r| ==> s[i] in chars
    decreases |s|
  {
    if s != [] && s[0] in chars then
      var r := LStrip(s[1..], chars);
      assert s[1..][|s| - 1 - |r|..] == s[|s| - |r|..];
      assert forall i :: 0 <= i < |s| - |r| ==> s[i] in chars by {
        forall i | 1 <= i < |s| - |r|
          ensures s[i] in chars
        {
          assert s[i] == s[1..][i - 1];
        }
      }
      r
    else
      s
  }

  /** `s.strip(chars)`: both ends. */
  function Strip(s: string, chars: set<char>): string
  {
    LStrip(RStrip(s, chars), chars)
  }

  /** The index of the first character of `s` that belongs to `chars`, or
      `|s|` when there is none. */
  function FirstIndex(s: string, chars: set<char>): (k: nat)
    ensures k <= |s|
    ensures k < |s| ==> s[k] in chars
    ensures forall i :: 0 <= i < k ==> s[i] !in chars
  {
    FirstIndexFrom(s, chars, 0)
  }

  /** The index of the first character of `s` at or after `start` that
      belongs to `chars`, or `|s|` when there is none. */
  function FirstIndexFrom(s: string, chars: set<char>, start: nat): (k: nat)
    requires start <= |s|
    ensures start <= k <= |s|
    ensures k < |s| ==> s[k] in chars
    ensures forall i :: start <= i < k ==> s[i] !in chars
    decreases |s| - start
  {
    if start == |s| then start
    else if s[start] in chars then start
    else FirstIndexFrom(s, chars, start + 1)
  }

  /** Every character of `s` belongs to `chars`. */
  predicate AllIn(s: string, chars: set<char>)
  {
    forall i :: 0 <= i < |s| ==> s[i] in chars
  }

  /** The three properties in the contract of RStrip pin its result down:
      no other prefix of `s` has them. */
  lemma RStripUnique(s: string, chars: set<char>, p: string)
    requires p <= s
    requires p == [] || p[|p| - 1] !in chars
    requires forall i :: |p| <= i < |s| ==> s[i] in chars
    ensures RStrip(s, chars) == p
  {
    var r := RStrip(s, chars);
    assert |r| == |p|;
  }

  /** Stripping twice is stripping once. */
  lemma RStripIdempotent(s: string, chars: set<char>)
    ensures RStrip(RStrip(s, chars), chars) == RStrip(s, chars)
  {
    var r := RStrip(s, chars);
    RStripUnique(r, chars, r);
  }

  /** Appending characters of `chars` does not change what rstrip keeps. */
  lemma RStripAppend(s: string, t: string, chars: set<char>)
    requires AllIn(t, chars)
    ensures RStrip(s + t, chars) == RStrip(s, chars)
  {
    var r := RStrip(s, chars);
    assert r <= s + t;
    forall i | |r| <= i < |s + t|
      ensures (s + t)[i] in chars
    {
      if i >= |s| { assert (s + t)[i] == t[i - |s|]; }
    }
    RStripUnique(s + t, chars, r);
  }

  /** Prepending characters of `chars` does not change what lstrip keeps. */
  lemma {:induction false} LStripPrepend(t: string, s: string, chars: set<char>)
    requires AllIn(t, chars)
    ensures LStrip(t + s, chars) == LStrip(s, chars)
    decreases |t|
  {
    if t != [] {
      assert (t + s)[0] == t[0];
      assert (t + s)[1..] == t[1..] + s;
      LStripPrepend(t[1..], s, chars);
    } else {
      assert t + s == s;
    }
  }

  /** A character outside `chars` survives stripping from both ends. */
  lemma StripKeeps(s: string, chars: set<char>, i: nat)
    requires i < |s| && s[i] !in chars
    ensures s[i] in Strip(s, chars)
  {
    var r := RStrip(s, chars);
    assert i < |r| && r[i] == s[i];
    var l := LStrip(r, chars);
    assert |r| - |l| <= i;
    assert l[i - (|r| - |l|)] == r[i];
  }
}
