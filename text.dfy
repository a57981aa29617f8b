/** String helpers for the command line: Python's `" ".join(...)`, its inverse on
    space-free tokens, and the removal of a known prefix and suffix. */
module Text {
  import opened Wrappers

  /** True when `s` holds no space character. */
  predicate NoSpace(s: string) {
    forall i :: 0 <= i < |s| ==> s[i] != ' '
  }

  /** The number of characters in all of `parts` together. */
  function TotalLength(parts: seq<string>): nat
  {
    if |parts| == 0 then 0 else |parts[0]| + TotalLength(parts[1..])
  }

  /** `" ".join(parts)`: the parts in order, one space between neighbours. The result
      is empty for no parts, starts with the first part, and holds exactly the parts'
      characters plus one space for each gap. */
  function JoinSpace(parts: seq<string>): (r: string)
    ensures |parts| == 0 ==> r == ""
    ensures |parts| > 0 ==> |r| == TotalLength(parts) + |parts| - 1
    ensures |parts| > 0 ==> |parts[0]| <= |r| && r[..|parts[0]|] == parts[0]
  {
    if |parts| == 0 then ""
    else if |parts| == 1 then parts[0]
    else parts[0] + " " + JoinSpace(parts[1..])
  }

  /** Splits `s` at every space; the reverse of `JoinSpace` on space-free tokens.
      Consecutive spaces yield empty parts, and the empty string splits into [""]. */
  function SplitOnSpace(s: string): (parts: seq<string>)
    ensures |parts| >= 1
  {
    if |s| == 0 then [""]
    else if s[0] == ' ' then [""] + SplitOnSpace(s[1..])
    else
      var rest := SplitOnSpace(s[1..]);
      [[s[0]] + rest[0]] + rest[1..]
  }

  /** The middle of `s` when `s` is `prefix + middle + suffix`, otherwise None. */
  function StripAffixes(s: string, prefix: string, suffix: string): (r: Option<string>)
    ensures r.Some? ==> s == prefix + r.value + suffix
  {
    if |prefix| + |suffix| <= |s| && s[..|prefix|] == prefix && s[|s| - |suffix|..] == suffix then
      var middle := s[|prefix|..|s| - |suffix|];
      assert s == s[..|prefix|] + middle + s[|s| - |suffix|..];
      Some(middle)
    else
      None
  }

  /** Stripping the affixes that were put around `middle` gives `middle` back. */
  lemma StripAffixesOfWrapped(prefix: string, middle: string, suffix: string)
    ensures StripAffixes(prefix + middle + suffix, prefix, suffix) == Some(middle)
  {
  }

  /** Joining the first `k + 1` parts is joining the first `k`, a space, then part `k`. */
  lemma JoinSpacePrefix(parts: seq<string>, k: nat)
    requires 0 < k < |parts|
    ensures JoinSpace(parts[..k + 1]) == JoinSpace(parts[..k]) + " " + parts[k]
  {
    assert parts[..k + 1] == parts[..k] + [parts[k]];
    JoinSpaceAppend(parts[..k], [parts[k]]);
  }

  /** Joining one part gives that part unchanged. */
  lemma JoinSpaceSingleton(x: string)
    ensures JoinSpace([x]) == x
  {
  }

  /** Joining a concatenation is joining each side and putting one space between them. */
  lemma {:induction false} JoinSpaceAppend(a: seq<string>, b: seq<string>)
    requires |a| > 0 && |b| > 0
    ensures JoinSpace(a + b) == JoinSpace(a) + " " + JoinSpace(b)
  {
    if |a| == 1 {
      assert (a + b)[1..] == b;
    } else {
      assert (a + b)[1..] == a[1..] + b;
      JoinSpaceAppend(a[1..], b);
    }
  }

  /** Splitting a space-free word gives the word alone. */
  lemma {:induction false} SplitOnSpaceWord(w: string)
    requires NoSpace(w)
    ensures SplitOnSpace(w) == [w]
  {
    if |w| > 0 {
      SplitOnSpaceWord(w[1..]);
      assert [w[0]] + w[1..] == w;
    }
  }

  /** Splitting a space-free word followed by a space and a tail gives the word, then the tail's parts. */
  lemma {:induction false} SplitOnSpaceAfterWord(w: string, tail: string)
    requires NoSpace(w)
    ensures SplitOnSpace(w + " " + tail) == [w] + SplitOnSpace(tail)
  {
    if |w| == 0 {
      assert w + " " + tail == [' '] + tail;
      assert (w + " " + tail)[1..] == tail;
    } else {
      assert (w + " " + tail)[1..] == w[1..] + " " + tail;
      SplitOnSpaceAfterWord(w[1..], tail);
      assert [w[0]] + w[1..] == w;
    }
  }

  /** Joining space-free parts loses nothing: splitting the result gives back the same
      parts in the same order. */
  lemma {:induction false} SplitJoinRoundTrip(parts: seq<string>)
    requires |parts| > 0
    requires forall i :: 0 <= i < |parts| ==> NoSpace(parts[i])
    ensures SplitOnSpace(JoinSpace(parts)) == parts
  {
    if |parts| == 1 {
      SplitOnSpaceWord(parts[0]);
    } else {
      SplitOnSpaceAfterWord(parts[0], JoinSpace(parts[1..]));
      SplitJoinRoundTrip(parts[1..]);
      assert [parts[0]] + parts[1..] == parts;
    }
  }
}
