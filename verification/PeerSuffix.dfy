/** Dropping pnpm's peer-dependency suffix from a lockfile key, and splitting the key. */
module PeerSuffix {
  import opened Options

  function Weight(c: char): int { if c == '(' then 1 else if c == ')' then -1 else 0 }

  /** How many parentheses a text leaves open. */
  function Depth(s: string): int {
    if s == "" then 0 else Weight(s[0]) + Depth(s[1..])
  }

  /** Every character lies inside balanced parentheses: a run of groups such as `(react@18.2.0(x@1))(y@2)`. */
  ghost predicate PeerGroups(t: string) {
    && Depth(t) == 0
    && forall k | 0 <= k < |t| :: Depth(t[..k]) > 0 || (Depth(t[..k]) == 0 && t[k] == '(')
  }

  predicate EndsInParenthesis(s: string) { s != "" && s[|s| - 1] == ')' }

  /** `value` is `bare` with a run of peer groups behind it. */
  ghost predicate Decomposes(value: string, bare: string, groups: string) {
    value == bare + groups && PeerGroups(groups) && !EndsInParenthesis(bare)
  }

  // ---- The code --------------------------------------------------------------

  /** Scanning back from `i`, where the depth first returns to zero; -1 when it never does. */
  function MatchBack(s: string, i: int, depth: int): (start: int)
    requires -1 <= i < |s|
    ensures -1 <= start <= i
    decreases i + 1
  {
    if i < 0 then -1
    else if s[i] == ')' then MatchBack(s, i - 1, depth + 1)
    else if s[i] == '(' then if depth - 1 == 0 then i else MatchBack(s, i - 1, depth - 1)
    else MatchBack(s, i - 1, depth)
  }

  function StripFrom(value: string, end: nat): string
    requires end <= |value|
    decreases end
  {
    if end == 0 || value[end - 1] != ')' then value[..end]
    else
      var start := MatchBack(value, end - 1, 0);
      if start == -1 then value else StripFrom(value, start)
  }

  method StripPeerSuffix(value: string) returns (r: string)
    ensures r == StripFrom(value, |value|)
    ensures forall bare, groups | Decomposes(value, bare, groups) :: r == bare
    ensures r == value || exists bare, groups :: Decomposes(value, bare, groups)
  {
    forall bare, groups | Decomposes(value, bare, groups) ensures StripFrom(value, |value|) == bare {
      StripsGroups(bare, groups);
    }
    StripsOnlyGroups(value);
    var end := |value|;
    while end > 0 && value[end - 1] == ')'
      invariant 0 <= end <= |value| && StripFrom(value, end) == StripFrom(value, |value|)
    {
      var depth, start := 0, -1;
      var index := end - 1;
      while index >= 0
        invariant -1 <= index < end && start == -1
        invariant MatchBack(value, end - 1, 0) == MatchBack(value, index, depth)
      {
        if value[index] == ')' {
          depth := depth + 1;
        } else if value[index] == '(' {
          depth := depth - 1;
          if depth == 0 {
            start := index;
            break;
          }
        }
        index := index - 1;
      }
      if start == -1 {
        return value;
      }
      end := start;
    }
    r := value[..end];
  }

  /** The last `@` at or before `i`, or -1. */
  function LastAt(s: string, i: int): (at: int)
    requires -1 <= i < |s|
    ensures -1 <= at <= i
    decreases i + 1
  {
    if i < 0 || s[i] == '@' then i else LastAt(s, i - 1)
  }

  /** The name and version of a lockfile key, or nothing when it cannot be split. */
  function SplitPackageKey(key: string): Option<(string, string)> {
    var bare := StripFrom(key, |key|);
    var separator := LastAt(bare, |bare| - 1);
    if separator <= 0 then None else Some((bare[..separator], bare[separator + 1..]))
  }

  // ---- Depth ------------------------------------------------------------------

  lemma {:induction false} DepthOfConcat(a: string, b: string)
    ensures Depth(a + b) == Depth(a) + Depth(b)
  {
    if a == "" {
      assert a + b == b;
    } else {
      DepthOfConcat(a[1..], b);
      assert (a + b)[1..] == a[1..] + b;
    }
  }

  lemma DepthOfSlices(s: string, i: nat, j: nat, k: nat)
    requires i <= j <= k <= |s|
    ensures Depth(s[i..k]) == Depth(s[i..j]) + Depth(s[j..k])
  {
    DepthOfConcat(s[i..j], s[j..k]);
    assert s[i..k] == s[i..j] + s[j..k];
  }

  lemma DepthOfOne(s: string, i: nat)
    requires i < |s|
    ensures Depth(s[i..i + 1]) == Weight(s[i])
  {
    assert s[i..i + 1] == [s[i]];
    assert [s[i]][1..] == "";
  }

  // ---- Matching parentheses ------------------------------------------------------

  /** The parenthesis at `i` is the one the text up to `end` closes last. */
  ghost predicate Opens(s: string, i: nat, end: nat)
    requires end <= |s|
  {
    i < end && s[i] == '(' && Depth(s[i..end]) == 0 && forall k | i < k < end :: Depth(s[k..end]) < 0
  }

  lemma DepthFrom(s: string, i: nat, end: nat)
    requires i < end <= |s|
    ensures Depth(s[i..end]) == Weight(s[i]) + Depth(s[i + 1..end])
  {
    assert s[i..end][1..] == s[i + 1..end];
  }

  lemma {:induction false} MatchBackFinds(s: string, i: int, depth: nat, end: nat)
    requires -1 <= i < end <= |s| && depth == -Depth(s[i + 1..end]) && depth >= 1
    requires forall k | i < k < end :: Depth(s[k..end]) < 0
    ensures var start := MatchBack(s, i, depth);
      if start == -1 then forall k | 0 <= k < end :: Depth(s[k..end]) < 0 else Opens(s, start, end)
    decreases i + 1
  {
    hide Depth;
    if i >= 0 {
      DepthFrom(s, i, end);
      if depth != Weight(s[i]) {
        MatchBackFinds(s, i - 1, depth - Weight(s[i]), end);
      }
    }
  }

  lemma MatchBackExact(s: string, end: nat)
    requires 0 < end <= |s| && s[end - 1] == ')'
    ensures var start := MatchBack(s, end - 1, 0);
      if start == -1 then forall k | 0 <= k < end :: Depth(s[k..end]) < 0 else Opens(s, start, end)
  {
    DepthOfOne(s, end - 1);
    MatchBackFinds(s, end - 2, 1, end);
  }

  // ---- Runs of groups ---------------------------------------------------------------

  lemma GroupsEndInParenthesis(t: string)
    requires PeerGroups(t) && t != ""
    ensures EndsInParenthesis(t)
  {
    var n := |t| - 1;
    DepthOfSlices(t, 0, n, |t|);
    DepthOfOne(t, n);
    assert t[..n] == t[0..n] && t == t[0..|t|];
  }

  lemma GroupsPrefix(t: string, j: nat)
    requires PeerGroups(t) && j <= |t| && Depth(t[j..]) == 0
    ensures PeerGroups(t[..j])
  {
    DepthOfConcat(t[..j], t[j..]);
    assert t == t[..j] + t[j..];
    assert forall k | 0 <= k < j :: t[..j][..k] == t[..k];
  }

  lemma {:induction false} StripsGroupsUpTo(value: string, bare: string, groups: string, end: nat)
    requires bare + groups <= value && PeerGroups(groups) && !EndsInParenthesis(bare)
    requires end == |bare| + |groups|
    ensures StripFrom(value, end) == bare
    decreases |groups|
  {
    hide Depth, MatchBack;
    var m := |bare|;
    assert value[m..end] == groups && value[..m] == bare;
    if groups == "" {
      assert value[..end] == bare;
    } else {
      GroupsEndInParenthesis(groups);
      assert value[end - 1] == groups[|groups| - 1];
      MatchBackExact(value, end);
      var start := MatchBack(value, end - 1, 0);
      assert Depth(value[m..end]) == 0;
      assert start >= m;
      var j := start - m;
      assert value[start..end] == groups[j..];
      GroupsPrefix(groups, j);
      StripsGroupsUpTo(value, bare, groups[..j], start);
    }
  }

  /** A maximal run of peer groups is dropped, whole. */
  lemma {:induction false} StripsGroups(bare: string, groups: string)
    requires PeerGroups(groups) && !EndsInParenthesis(bare)
    ensures StripFrom(bare + groups, |bare + groups|) == bare
  {
    StripsGroupsUpTo(bare + groups, bare, groups, |bare + groups|);
  }

  lemma EmptyDepth()
    ensures Depth("") == 0
  {
  }

  lemma GroupInFront(s: string, i: nat, end: nat)
    requires end <= |s| && Opens(s, i, end) && PeerGroups(s[end..])
    ensures PeerGroups(s[i..])
  {
    hide Depth;
    var t := s[i..];
    EmptyDepth();
    DepthOfSlices(s, i, end, |s|);
    assert s[i..|s|] == t && s[end..|s|] == s[end..];
    forall k | 0 <= k < |t| ensures Depth(t[..k]) > 0 || (Depth(t[..k]) == 0 && t[k] == '(') {
      assert t[..k] == s[i..i + k];
      if i + k < end {
        DepthOfSlices(s, i, i + k, end);
      } else {
        DepthOfSlices(s, i, end, i + k);
        assert s[end..][..i + k - end] == s[end..i + k];
      }
    }
  }

  lemma {:induction false} StripsOnlyFrom(value: string, end: nat)
    requires end <= |value| && PeerGroups(value[end..])
    ensures StripFrom(value, end) == value ||
      exists bare, groups :: Decomposes(value, bare, groups) && StripFrom(value, end) == bare
    decreases end
  {
    if end == 0 || value[end - 1] != ')' {
      assert value == value[..end] + value[end..];
      assert Decomposes(value, value[..end], value[end..]);
    } else {
      MatchBackExact(value, end);
      var start := MatchBack(value, end - 1, 0);
      if start != -1 {
        GroupInFront(value, start, end);
        StripsOnlyFrom(value, start);
      }
    }
  }

  /** Anything else is handed back as it came: nothing but a maximal run of groups is ever dropped. */
  lemma {:induction false} StripsOnlyGroups(value: string)
    ensures StripFrom(value, |value|) == value ||
      exists bare, groups :: Decomposes(value, bare, groups) && StripFrom(value, |value|) == bare
  {
    assert value[|value|..] == "";
    StripsOnlyFrom(value, |value|);
  }

  /** Stripping twice is stripping once. */
  lemma {:induction false} StripIsIdempotent(value: string)
    ensures var bare := StripFrom(value, |value|); StripFrom(bare, |bare|) == bare
  {
    StripsOnlyGroups(value);
    var bare := StripFrom(value, |value|);
    if bare != value {
      assert PeerGroups("");
      assert bare + "" == bare;
      StripsGroups(bare, "");
    }
  }

  // ---- Keys -----------------------------------------------------------------------

  lemma {:induction false} LastAtFound(s: string, i: int, at: nat)
    requires at <= i < |s| && s[at] == '@' && forall k | at < k <= i :: s[k] != '@'
    ensures LastAt(s, i) == at
    decreases i
  {
    if i > at {
      LastAtFound(s, i - 1, at);
    }
  }

  /** Every peer variant of a key gives the same name and version, scoped names included. */
  lemma VariantSplits(name: string, version: string, groups: string)
    requires name != "" && '@' !in version && PeerGroups(groups) && !EndsInParenthesis(name + "@" + version)
    ensures SplitPackageKey(name + "@" + version + groups) == Some((name, version))
  {
    var bare := name + "@" + version;
    StripsGroups(bare, groups);
    LastAtFound(bare, |bare| - 1, |name|);
    assert bare[..|name|] == name && bare[|name| + 1..] == version;
  }

  /** A key is split at the last `@` of what is left of it without its groups, if that is not its first character. */
  lemma {:induction false} SplitsExactly(key: string)
    ensures var bare, split := StripFrom(key, |key|), SplitPackageKey(key);
      && (split.None? <==> forall k | 0 < k < |bare| :: !AtSignAt(bare, k))
      && (split.Some? ==> split.value.0 != "" && bare == split.value.0 + "@" + split.value.1 && '@' !in split.value.1)
  {
    hide StripFrom, LastAt, AtSignAt;
    var bare := StripFrom(key, |key|);
    var at := LastAt(bare, |bare| - 1);
    LastAtIsLast(bare, |bare| - 1);
    if at > 0 {
      SplitAround(bare, at);
    }
  }

  predicate AtSignAt(s: string, k: int)
    requires 0 <= k < |s|
  {
    s[k] == '@'
  }

  lemma SplitAround(s: string, at: int)
    requires 0 < at < |s| && AtSignAt(s, at) && forall k | at < k < |s| :: !AtSignAt(s, k)
    ensures s[..at] != "" && s == s[..at] + "@" + s[at + 1..] && '@' !in s[at + 1..]
  {
    if '@' in s[at + 1..] {
      var k :| 0 <= k < |s| - at - 1 && s[at + 1..][k] == '@';
      assert AtSignAt(s, at + 1 + k);
    }
  }

  lemma {:induction false} LastAtIsLast(s: string, i: int)
    requires -1 <= i < |s|
    ensures forall k | LastAt(s, i) < k <= i :: !AtSignAt(s, k)
    ensures LastAt(s, i) >= 0 ==> AtSignAt(s, LastAt(s, i))
    decreases i + 1
  {
    if i >= 0 && s[i] != '@' {
      LastAtIsLast(s, i - 1);
    }
  }

  /** All peer variants of a key split alike, or fail alike. */
  lemma VariantsSplitAlike(bare: string, groups: string)
    requires PeerGroups(groups) && !EndsInParenthesis(bare)
    ensures SplitPackageKey(bare + groups) == SplitPackageKey(bare)
  {
    StripsGroups(bare, groups);
    assert PeerGroups("");
    assert bare + "" == bare;
    StripsGroups(bare, "");
  }
}
