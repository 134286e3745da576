/** Routing parameters (src/gax-internal/src/routing_parameter.rs): a greedy matcher for AIP-4222
    path templates and the percent-encoded header it feeds. Strings are their UTF-8 bytes. */
module RoutingParameter {
  import opened Resources

  newtype Byte = b: int | 0 <= b < 256
  type Str = seq<Byte>

  const SLASH: Byte := 47
  const COLON: Byte := 58
  const AMPERSAND: Byte := 38
  const EQUALS: Byte := 61
  const PERCENT: Byte := 37

  datatype Segment = Literal(text: Str) | SingleWildcard | MultiWildcard | TrailingMultiWildcard

  /** Where `c` first occurs in `s` at or after `from`, or the length of `s`. */
  function FindFrom(s: Str, c: Byte, from: nat): (i: nat)
    requires from <= |s|
    ensures from <= i <= |s|
    decreases |s| - from
  {
    if from == |s| || s[from] == c then from else FindFrom(s, c, from + 1)
  }

  lemma {:induction false} FindsFirst(s: Str, c: Byte, from: nat, k: nat)
    requires from <= k <= |s| && (forall j :: from <= j < k ==> s[j] != c) && (k < |s| ==> s[k] == c)
    ensures FindFrom(s, c, from) == k
    decreases k - from
  {
    if from < k {
      FindsFirst(s, c, from + 1, k);
    }
  }

  lemma {:induction false} FoundIsFirst(s: Str, c: Byte, from: nat)
    requires from <= |s|
    ensures forall j :: from <= j < FindFrom(s, c, from) ==> s[j] != c
    ensures FindFrom(s, c, from) < |s| ==> s[FindFrom(s, c, from)] == c
    decreases |s| - from
  {
    if from < |s| && s[from] != c {
      FoundIsFirst(s, c, from + 1);
    }
  }

  /** `match_size` on what remains of `h` from `pos` on. */
  function MatchSize(seg: Segment, h: Str, pos: nat): (n: Option<nat>)
    requires pos <= |h|
    ensures n.Some? ==> pos + n.value <= |h|
  {
    match seg
    case Literal(text) =>
      if pos + |text| <= |h| && h[pos..pos + |text|] == text then Some(|text|) else None
    case SingleWildcard =>
      (var i := FindFrom(h, SLASH, pos) - pos; if i != 0 then Some(i) else None)
    case MultiWildcard => Some(|h| - pos)
    case TrailingMultiWildcard =>
      if pos == |h| then Some(0)
      else if h[pos] == SLASH || h[pos] == COLON then Some(|h| - pos)
      else None
  }

  /** The position in `h` after the first `i` segments, starting at `from`, took what `MatchSize`
      gives them. */
  function Reached(segs: seq<Segment>, h: Str, from: nat, i: nat): (pos: Option<nat>)
    requires i <= |segs| && from <= |h|
    ensures pos.Some? ==> from <= pos.value <= |h|
    decreases i
  {
    if i == 0 then Some(from)
    else
      match Reached(segs, h, from, i - 1)
      case None => None
      case Some(p) =>
        match MatchSize(segs[i - 1], h, p)
        case None => None
        case Some(k) => Some(p + k)
  }

  lemma {:induction false} ReachedBefore(segs: seq<Segment>, h: Str, from: nat, i: nat, j: nat)
    requires i <= j <= |segs| && from <= |h|
    ensures Reached(segs, h, from, j).Some? ==>
      Reached(segs, h, from, i).Some? &&
      Reached(segs, h, from, i).value <= Reached(segs, h, from, j).value
    decreases j
  {
    if i < j {
      ReachedBefore(segs, h, from, i, j - 1);
    }
  }

  /** One of the three loops of `value`: where `needles` end that start at `from`. */
  method Consume(needles: seq<Segment>, h: Str, from: nat) returns (end: Option<nat>)
    requires from <= |h|
    ensures end == Reached(needles, h, from, |needles|)
  {
    var pos := from;
    for i := 0 to |needles|
      invariant pos <= |h| && Reached(needles, h, from, i) == Some(pos)
    {
      var count := MatchSize(needles[i], h, pos);
      if count.None? {
        ReachedBefore(needles, h, from, i + 1, |needles|);
        return None;
      }
      assert Reached(needles, h, from, i + 1) == Some(pos + count.value);
      pos := pos + count.value;
    }
    return Some(pos);
  }

  /** What `value` finds: the bytes between the prefix and the suffix, if they take everything else. */
  function ValueOf(h: Str, prefix: seq<Segment>, matching: seq<Segment>, suffix: seq<Segment>): Option<Str> {
    match Reached(prefix, h, 0, |prefix|)
    case None => None
    case Some(start) =>
      match Reached(matching, h, start, |matching|)
      case None => None
      case Some(end) =>
        if start == end || Reached(suffix, h, end, |suffix|) != Some(|h|) then None
        else Some(h[start..end])
  }

  /** `value` */
  method Value(haystack: Option<Str>, prefix: seq<Segment>, matching: seq<Segment>,
               suffix: seq<Segment>) returns (r: Option<Str>)
    ensures haystack.None? ==> r == None
    ensures haystack.Some? ==> r == ValueOf(haystack.value, prefix, matching, suffix)
  {
    if haystack.None? {
      return None;
    }
    var h := haystack.value;
    var start := Consume(prefix, h, 0);
    if start.None? {
      return None;
    }
    var end := Consume(matching, h, start.value);
    if end.None? {
      return None;
    }
    var rest := Consume(suffix, h, end.value);
    if rest.None? || rest.value != |h| || start == end {
      return None;
    }
    return Some(h[start.value..end.value]);
  }

  // ----- the language of templates

  /** The strings a segment stands for. */
  predicate InSegment(seg: Segment, s: Str) {
    match seg
    case Literal(text) => s == text
    case SingleWildcard => s != [] && SLASH !in s
    case MultiWildcard => true
    case TrailingMultiWildcard => s != [] ==> s[0] == SLASH || s[0] == COLON
  }

  /** `cuts` cuts `h[from..to]` into one piece per segment, each in the language of its segment. */
  predicate Fits(segs: seq<Segment>, h: Str, from: nat, to: nat, cuts: seq<nat>) {
    && |cuts| == |segs| + 1 && cuts[0] == from && cuts[|segs|] == to <= |h|
    && (forall i :: 0 <= i < |segs| ==> PieceFits(segs, h, cuts, i))
  }

  predicate PieceFits(segs: seq<Segment>, h: Str, cuts: seq<nat>, i: nat)
    requires |cuts| == |segs| + 1 && i < |segs|
  {
    cuts[i] <= cuts[i + 1] <= |h| && InSegment(segs[i], h[cuts[i]..cuts[i + 1]])
  }

  /** `h[from..to]` is in the language of the template. */
  ghost predicate InTemplate(segs: seq<Segment>, h: Str, from: nat, to: nat) {
    exists cuts :: Fits(segs, h, from, to, cuts)
  }

  /** The haystack is a prefix, then the nonempty match `h[start..end]`, then a suffix, each in the
      language of its template. */
  ghost predicate Splits(h: Str, start: nat, end: nat,
                         prefix: seq<Segment>, matching: seq<Segment>, suffix: seq<Segment>)
  {
    && start < end <= |h|
    && InTemplate(prefix, h, 0, start)
    && InTemplate(matching, h, start, end)
    && InTemplate(suffix, h, end, |h|)
  }

  lemma MatchIsInSegment(seg: Segment, h: Str, pos: nat)
    requires pos <= |h|
    ensures MatchSize(seg, h, pos).Some? ==>
      InSegment(seg, h[pos..pos + MatchSize(seg, h, pos).value])
  {
    FoundIsFirst(h, SLASH, pos);
  }

  /** The cuts the greedy matcher makes. */
  function GreedyCuts(segs: seq<Segment>, h: Str, from: nat, n: nat): (cuts: seq<nat>)
    requires n <= |segs| && from <= |h| && Reached(segs, h, from, n).Some?
    ensures |cuts| == n + 1 && cuts[0] == from && cuts[n] == Reached(segs, h, from, n).value
  {
    if n == 0 then [from] else GreedyCuts(segs, h, from, n - 1) + [Reached(segs, h, from, n).value]
  }

  lemma {:induction false} GreedyCutsFit(segs: seq<Segment>, h: Str, from: nat, n: nat)
    requires n <= |segs| && from <= |h| && Reached(segs, h, from, n).Some?
    ensures Fits(segs[..n], h, from, Reached(segs, h, from, n).value, GreedyCuts(segs, h, from, n))
  {
    if n > 0 {
      GreedyCutsFit(segs, h, from, n - 1);
      MatchIsInSegment(segs[n - 1], h, Reached(segs, h, from, n - 1).value);
      forall i | 0 <= i < n
        ensures PieceFits(segs[..n], h, GreedyCuts(segs, h, from, n), i)
      {
        assert i < n - 1 ==> PieceFits(segs[..n - 1], h, GreedyCuts(segs, h, from, n - 1), i);
      }
    }
  }

  lemma ReachedIsInTemplate(segs: seq<Segment>, h: Str, from: nat)
    requires from <= |h| && Reached(segs, h, from, |segs|).Some?
    ensures InTemplate(segs, h, from, Reached(segs, h, from, |segs|).value)
  {
    GreedyCutsFit(segs, h, from, |segs|);
    assert segs[..|segs|] == segs;
  }

  /** Whatever the template, a value that is found is the nonempty match of a proper split. */
  lemma ValueIsSound(h: Str, prefix: seq<Segment>, matching: seq<Segment>, suffix: seq<Segment>)
    requires ValueOf(h, prefix, matching, suffix).Some?
    ensures var start := Reached(prefix, h, 0, |prefix|).value;
      var end := start + |ValueOf(h, prefix, matching, suffix).value|;
      && Splits(h, start, end, prefix, matching, suffix)
      && ValueOf(h, prefix, matching, suffix) == Some(h[start..end])
  {
    var start := Reached(prefix, h, 0, |prefix|).value;
    var end := Reached(matching, h, start, |matching|).value;
    ReachedIsInTemplate(prefix, h, 0);
    ReachedIsInTemplate(matching, h, start);
    ReachedIsInTemplate(suffix, h, end);
  }

  // ----- which splits the matcher finds, for every template

  /** Nothing follows `p`, or a slash does. */
  predicate StopsAt(h: Str, p: nat) {
    p == |h| || (p < |h| && h[p] == SLASH)
  }

  /** The segment may take everything that remains. */
  predicate IsTail(seg: Segment) {
    seg.MultiWildcard? || seg.TrailingMultiWildcard?
  }

  /** Each of the first `n` wildcards takes all it can: a `*` up to a slash or the end, a `**` everything. */
  predicate Possessive(segs: seq<Segment>, h: Str, cuts: seq<nat>, n: nat)
    requires n <= |segs| && |cuts| == |segs| + 1
  {
    forall i :: 0 <= i < n ==> PieceTakesAll(segs, h, cuts, i)
  }

  predicate PieceTakesAll(segs: seq<Segment>, h: Str, cuts: seq<nat>, i: nat)
    requires |cuts| == |segs| + 1 && i < |segs|
  {
    TakesAll(segs[i], h, cuts[i + 1])
  }

  predicate TakesAll(seg: Segment, h: Str, to: nat) {
    (seg.SingleWildcard? ==> StopsAt(h, to)) && (IsTail(seg) ==> to == |h|)
  }

  /** `h[from..to]` is in the language of the template with every wildcard taking all it can. */
  ghost predicate InTemplatePossessively(segs: seq<Segment>, h: Str, from: nat, to: nat) {
    exists cuts :: Fits(segs, h, from, to, cuts) && Possessive(segs, h, cuts, |segs|)
  }

  ghost predicate SplitsPossessively(h: Str, start: nat, end: nat,
                                     prefix: seq<Segment>, matching: seq<Segment>, suffix: seq<Segment>)
  {
    && start < end <= |h|
    && InTemplatePossessively(prefix, h, 0, start)
    && InTemplatePossessively(matching, h, start, end)
    && InTemplatePossessively(suffix, h, end, |h|)
  }

  /** What a segment takes is all it can take. */
  lemma MatchTakesAll(seg: Segment, h: Str, pos: nat)
    requires pos <= |h|
    ensures MatchSize(seg, h, pos).Some? ==> TakesAll(seg, h, pos + MatchSize(seg, h, pos).value)
  {
    FoundIsFirst(h, SLASH, pos);
  }

  /** And a piece of its language that is all it can take is what it takes. */
  lemma PieceIsMatch(seg: Segment, h: Str, p: nat, e: nat)
    requires p <= e <= |h| && InSegment(seg, h[p..e]) && TakesAll(seg, h, e)
    ensures MatchSize(seg, h, p) == Some(e - p)
  {
    if seg.SingleWildcard? {
      assert forall j :: p <= j < e ==> h[j] == h[p..e][j - p];
      FindsFirst(h, SLASH, p, e);
    }
  }

  lemma {:induction false} GreedyCutsArePossessive(segs: seq<Segment>, h: Str, from: nat, n: nat)
    requires n <= |segs| && from <= |h| && Reached(segs, h, from, n).Some?
    ensures Possessive(segs[..n], h, GreedyCuts(segs, h, from, n), n)
  {
    if n > 0 {
      GreedyCutsArePossessive(segs, h, from, n - 1);
      MatchTakesAll(segs[n - 1], h, Reached(segs, h, from, n - 1).value);
      forall i | 0 <= i < n
        ensures PieceTakesAll(segs[..n], h, GreedyCuts(segs, h, from, n), i)
      {
        assert i < n - 1 ==> PieceTakesAll(segs[..n - 1], h, GreedyCuts(segs, h, from, n - 1), i);
      }
    }
  }

  lemma {:induction false} CutsAreReached(segs: seq<Segment>, h: Str, from: nat, to: nat, cuts: seq<nat>,
                                          i: nat)
    requires i <= |segs| && from <= |h|
    requires Fits(segs, h, from, to, cuts) && Possessive(segs, h, cuts, i)
    ensures Reached(segs, h, from, i) == Some(cuts[i])
    decreases i
  {
    if i > 0 {
      CutsAreReached(segs, h, from, to, cuts, i - 1);
      assert PieceFits(segs, h, cuts, i - 1) && PieceTakesAll(segs, h, cuts, i - 1);
      PieceIsMatch(segs[i - 1], h, cuts[i - 1], cuts[i]);
    }
  }

  /** A loop of the matcher ends at `to` exactly if `to` ends a possessive fit. */
  lemma ReachedIsPossessive(segs: seq<Segment>, h: Str, from: nat, to: nat)
    requires from <= |h|
    ensures Reached(segs, h, from, |segs|) == Some(to) <==> InTemplatePossessively(segs, h, from, to)
  {
    if Reached(segs, h, from, |segs|) == Some(to) {
      GreedyCutsFit(segs, h, from, |segs|);
      GreedyCutsArePossessive(segs, h, from, |segs|);
      assert segs[..|segs|] == segs;
    }
    if cuts :| Fits(segs, h, from, to, cuts) && Possessive(segs, h, cuts, |segs|) {
      CutsAreReached(segs, h, from, to, cuts, |segs|);
    }
  }

  /** For every template and every haystack: `value` finds `m` if and only if `m` is the match of a
      proper split in which every wildcard takes all it can. */
  lemma ValueIsPossessive(h: Str, prefix: seq<Segment>, matching: seq<Segment>, suffix: seq<Segment>, m: Str)
    ensures ValueOf(h, prefix, matching, suffix) == Some(m) <==>
      exists start: nat, end: nat ::
        SplitsPossessively(h, start, end, prefix, matching, suffix) && h[start..end] == m
  {
    if ValueOf(h, prefix, matching, suffix) == Some(m) {
      var start := Reached(prefix, h, 0, |prefix|).value;
      var end := Reached(matching, h, start, |matching|).value;
      ReachedIsPossessive(prefix, h, 0, start);
      ReachedIsPossessive(matching, h, start, end);
      ReachedIsPossessive(suffix, h, end, |h|);
      assert SplitsPossessively(h, start, end, prefix, matching, suffix);
    }
    if start: nat, end: nat :|
      SplitsPossessively(h, start, end, prefix, matching, suffix) && h[start..end] == m
    {
      ReachedIsPossessive(prefix, h, 0, start);
      ReachedIsPossessive(matching, h, start, end);
      ReachedIsPossessive(suffix, h, end, |h|);
    }
  }

  // ----- safe templates

  /** A template part before `rest` is safe when `**` occurs only last in the template, and each `*` is
      last, or followed by a literal that starts with a slash, or by the final `**`. */
  predicate Safe(segs: seq<Segment>, rest: seq<Segment>) {
    forall i :: 0 <= i < |segs| ==> SafeBefore(segs[i], segs[i + 1..] + rest)
  }

  predicate SafeBefore(seg: Segment, rest: seq<Segment>) {
    match seg
    case Literal(_) => true
    case SingleWildcard =>
      || rest == []
      || (rest[0].Literal? && rest[0].text != [] && rest[0].text[0] == SLASH)
      || IsFinal(rest)
    case _ => rest == []
  }

  /** Only a `**` is left. */
  predicate IsFinal(rest: seq<Segment>) {
    |rest| == 1 && IsTail(rest[0])
  }

  predicate SafeTemplate(prefix: seq<Segment>, matching: seq<Segment>, suffix: seq<Segment>) {
    Safe(prefix, matching + suffix) && Safe(matching, suffix) && Safe(suffix, [])
  }

  /** A part boundary lies between a last `*` and the final `**`. */
  predicate Divided(part: seq<Segment>, rest: seq<Segment>) {
    part != [] && part[|part| - 1].SingleWildcard? && IsFinal(rest)
  }

  predicate Undivided(prefix: seq<Segment>, matching: seq<Segment>, suffix: seq<Segment>) {
    !Divided(prefix, matching + suffix) && !Divided(matching, suffix)
  }

  /** Where such a boundary is, the piece of the `**` is empty or starts with a slash; for a trailing `**`
      this says that it does not start with a colon. */
  predicate Clear(h: Str, start: nat, end: nat,
                  prefix: seq<Segment>, matching: seq<Segment>, suffix: seq<Segment>)
  {
    && (Divided(prefix, matching + suffix) ==> StopsAt(h, start))
    && (Divided(matching, suffix) ==> StopsAt(h, end))
  }

  lemma FitsConcatenate(a: seq<Segment>, b: seq<Segment>, h: Str, from: nat, mid: nat, to: nat,
                        cutsA: seq<nat>, cutsB: seq<nat>)
    requires Fits(a, h, from, mid, cutsA) && Fits(b, h, mid, to, cutsB)
    ensures Fits(a + b, h, from, to, cutsA + cutsB[1..])
  {
    var cuts := cutsA + cutsB[1..];
    assert forall i :: |a| <= i < |cuts| ==> cuts[i] == cutsB[i - |a|];
    forall i | 0 <= i < |a + b|
      ensures PieceFits(a + b, h, cuts, i)
    {
      if i < |a| {
        assert PieceFits(a, h, cutsA, i);
      } else {
        assert PieceFits(b, h, cutsB, i - |a|);
      }
    }
  }

  lemma Joined(a: seq<Segment>, b: seq<Segment>, h: Str, from: nat, mid: nat, to: nat)
    requires InTemplate(a, h, from, mid) && InTemplate(b, h, mid, to)
    ensures InTemplate(a + b, h, from, to)
  {
    var cutsA :| Fits(a, h, from, mid, cutsA);
    var cutsB :| Fits(b, h, mid, to, cutsB);
    FitsConcatenate(a, b, h, from, mid, to, cutsA, cutsB);
  }

  lemma FitsRest(segs: seq<Segment>, h: Str, from: nat, to: nat, cuts: seq<nat>, i: nat)
    requires Fits(segs, h, from, to, cuts) && i <= |segs|
    ensures Fits(segs[i..], h, cuts[i], to, cuts[i..])
  {
    forall k | 0 <= k < |segs| - i
      ensures PieceFits(segs[i..], h, cuts[i..], k)
    {
      assert PieceFits(segs, h, cuts, i + k);
    }
  }

  /** What may follow a `*` of a safe template, the final `**` aside, starts with a slash. */
  lemma WildcardStops(rest: seq<Segment>, h: Str, at: nat, cuts: seq<nat>)
    requires SafeBefore(SingleWildcard, rest) && !IsFinal(rest) && Fits(rest, h, at, |h|, cuts)
    ensures StopsAt(h, at)
  {
    if rest != [] {
      assert PieceFits(rest, h, cuts, 0);
      assert h[at..cuts[1]][0] == h[at];
    }
  }

  /** In a proper cut of a safe part every wildcard takes all it can, unless the final `**` follows. */
  lemma SafeTakesAll(segs: seq<Segment>, rest: seq<Segment>, h: Str, from: nat, to: nat,
                     cuts: seq<nat>, cutsR: seq<nat>, i: nat)
    requires Safe(segs, rest) && i < |segs|
    requires Fits(segs, h, from, to, cuts) && Fits(rest, h, to, |h|, cutsR)
    requires segs[i].SingleWildcard? && IsFinal(segs[i + 1..] + rest) ==> StopsAt(h, cuts[i + 1])
    ensures PieceTakesAll(segs, h, cuts, i)
  {
    var after := segs[i + 1..] + rest;
    assert SafeBefore(segs[i], after);
    FitsRest(segs, h, from, to, cuts, i + 1);
    FitsConcatenate(segs[i + 1..], rest, h, cuts[i + 1], to, |h|, cuts[i + 1..], cutsR);
    if segs[i].SingleWildcard? && !IsFinal(after) {
      WildcardStops(after, h, cuts[i + 1], cuts[i + 1..] + cutsR[1..]);
    }
  }

  /** A `*` and a final `**` in one part take everything between them. */
  lemma TailTakesAll(segs: seq<Segment>, h: Str, from: nat, cuts: seq<nat>)
    requires |segs| >= 2 && segs[|segs| - 2].SingleWildcard? && IsTail(segs[|segs| - 1])
    requires from <= |h| && Fits(segs, h, from, |h|, cuts)
    requires Reached(segs, h, from, |segs| - 2) == Some(cuts[|segs| - 2])
    ensures Reached(segs, h, from, |segs|) == Some(|h|)
  {
    var n := |segs|;
    var p := cuts[n - 2];
    assert PieceFits(segs, h, cuts, n - 2);
    assert h[p..cuts[n - 1]][0] == h[p];
    FoundIsFirst(h, SLASH, p);
    assert Reached(segs, h, from, n - 1) == Some(FindFrom(h, SLASH, p));
  }

  /** How many segments of a part come before a `*` that shares the part with the final `**`. */
  function Front(segs: seq<Segment>): (m: nat)
    ensures m <= |segs|
  {
    var n := |segs|;
    if n >= 2 && segs[n - 2].SingleWildcard? && IsTail(segs[n - 1]) then n - 2 else n
  }

  lemma FrontTakesAll(segs: seq<Segment>, rest: seq<Segment>, h: Str, from: nat, to: nat,
                      cuts: seq<nat>, cutsR: seq<nat>)
    requires Safe(segs, rest) && (Divided(segs, rest) ==> StopsAt(h, to))
    requires Fits(segs, h, from, to, cuts) && Fits(rest, h, to, |h|, cutsR)
    ensures Possessive(segs, h, cuts, Front(segs))
  {
    forall i | 0 <= i < Front(segs)
      ensures PieceTakesAll(segs, h, cuts, i)
    {
      SafeTakesAll(segs, rest, h, from, to, cuts, cutsR, i);
    }
  }

  /** A safe part takes exactly its own bytes when the rest of the haystack is in the language of the
      rest of the template, and stops there if only the final `**` follows its last `*`. */
  lemma PartIsReached(segs: seq<Segment>, rest: seq<Segment>, h: Str, from: nat, to: nat)
    requires Safe(segs, rest) && from <= |h| && (Divided(segs, rest) ==> StopsAt(h, to))
    requires InTemplate(segs, h, from, to) && InTemplate(rest, h, to, |h|)
    ensures Reached(segs, h, from, |segs|) == Some(to)
  {
    var cuts :| Fits(segs, h, from, to, cuts);
    var cutsR :| Fits(rest, h, to, |h|, cutsR);
    FrontTakesAll(segs, rest, h, from, to, cuts, cutsR);
    CutsAreReached(segs, h, from, to, cuts, Front(segs));
    if Front(segs) < |segs| {
      assert SafeBefore(segs[|segs| - 1], segs[|segs|..] + rest);
      assert rest == [];
      TailTakesAll(segs, h, from, cuts);
    }
  }

  lemma EmptyPart(h: Str, from: nat, to: nat)
    ensures InTemplate([], h, from, to) ==> from == to
  {
  }

  /** Of any proper split of a safe template that is clear, `value` finds the match. */
  lemma ValueIsComplete(h: Str, prefix: seq<Segment>, matching: seq<Segment>, suffix: seq<Segment>,
                        start: nat, end: nat)
    requires SafeTemplate(prefix, matching, suffix)
    requires Splits(h, start, end, prefix, matching, suffix) && Clear(h, start, end, prefix, matching, suffix)
    ensures ValueOf(h, prefix, matching, suffix) == Some(h[start..end])
    ensures Reached(prefix, h, 0, |prefix|) == Some(start)
  {
    assert Fits([], h, |h|, |h|, [|h|]);
    PartIsReached(suffix, [], h, end, |h|);
    PartIsReached(matching, suffix, h, start, end);
    Joined(matching, suffix, h, start, end, |h|);
    PartIsReached(prefix, matching + suffix, h, 0, start);
  }

  lemma LastWildcardStops(segs: seq<Segment>, h: Str, from: nat)
    requires segs != [] && segs[|segs| - 1].SingleWildcard?
    requires from <= |h| && Reached(segs, h, from, |segs|).Some?
    ensures StopsAt(h, Reached(segs, h, from, |segs|).value)
  {
    MatchTakesAll(segs[|segs| - 1], h, Reached(segs, h, from, |segs| - 1).value);
  }

  /** For safe templates, on every haystack: `value` finds `m` if and only if some proper split has `m` as
      its match and, where a part boundary lies between the last `*` and the final `**`, the piece of the
      `**` does not start with a colon. */
  lemma ValueIsExact(h: Str, prefix: seq<Segment>, matching: seq<Segment>, suffix: seq<Segment>, m: Str)
    requires SafeTemplate(prefix, matching, suffix)
    ensures ValueOf(h, prefix, matching, suffix) == Some(m) <==>
      exists start: nat, end: nat ::
        && Splits(h, start, end, prefix, matching, suffix)
        && Clear(h, start, end, prefix, matching, suffix)
        && h[start..end] == m
  {
    if ValueOf(h, prefix, matching, suffix) == Some(m) {
      var start := Reached(prefix, h, 0, |prefix|).value;
      ValueIsSound(h, prefix, matching, suffix);
      if Divided(prefix, matching + suffix) {
        LastWildcardStops(prefix, h, 0);
      }
      if Divided(matching, suffix) {
        LastWildcardStops(matching, h, start);
      }
      assert Clear(h, start, start + |m|, prefix, matching, suffix);
    }
    if start: nat, end: nat :|
      Splits(h, start, end, prefix, matching, suffix) && Clear(h, start, end, prefix, matching, suffix) &&
      h[start..end] == m
    {
      ValueIsComplete(h, prefix, matching, suffix, start, end);
    }
  }

  /** And there is at most one such split. */
  lemma SplitIsUnique(h: Str, prefix: seq<Segment>, matching: seq<Segment>, suffix: seq<Segment>,
                      start: nat, end: nat, start': nat, end': nat)
    requires SafeTemplate(prefix, matching, suffix)
    requires Splits(h, start, end, prefix, matching, suffix) && Clear(h, start, end, prefix, matching, suffix)
    requires Splits(h, start', end', prefix, matching, suffix) && Clear(h, start', end', prefix, matching, suffix)
    ensures start == start' && end == end'
  {
    ValueIsComplete(h, prefix, matching, suffix, start, end);
    ValueIsComplete(h, prefix, matching, suffix, start', end');
    assert |h[start..end]| == |h[start'..end']|;
  }

  // ----- which safe templates are complete on every haystack

  /** A string of the template's language: one letter per `*`, nothing for a `**`. */
  function Sample(segs: seq<Segment>): Str {
    if segs == [] then []
    else Sample(segs[..|segs| - 1]) + SampleOf(segs[|segs| - 1])
  }

  function SampleOf(seg: Segment): Str {
    match seg
    case Literal(text) => text
    case SingleWildcard => [97]
    case _ => []
  }

  lemma OnePiece(seg: Segment, h: Str, from: nat, to: nat)
    requires from <= to <= |h| && InSegment(seg, h[from..to])
    ensures InTemplate([seg], h, from, to)
  {
    assert Fits([seg], h, from, to, [from, to]);
  }

  lemma OneMorePiece(segs: seq<Segment>, h: Str, from: nat, mid: nat, to: nat)
    requires segs != [] && InTemplate(segs[..|segs| - 1], h, from, mid)
    requires mid <= to <= |h| && InSegment(segs[|segs| - 1], h[mid..to])
    ensures InTemplate(segs, h, from, to)
  {
    var n := |segs| - 1;
    OnePiece(segs[n], h, mid, to);
    Joined(segs[..n], [segs[n]], h, from, mid, to);
    assert segs[..n] + [segs[n]] == segs;
  }

  /** `part` stands in `h` at `from`. */
  predicate At(part: Str, h: Str, from: nat) {
    from + |part| <= |h| && h[from..from + |part|] == part
  }

  lemma AtSplits(a: Str, b: Str, h: Str, from: nat)
    requires At(a + b, h, from)
    ensures At(a, h, from) && At(b, h, from + |a|)
  {
    var whole := h[from..from + |a + b|];
    assert h[from..from + |a|] == whole[..|a|] && h[from + |a|..from + |a + b|] == whole[|a|..];
    assert (a + b)[..|a|] == a && (a + b)[|a|..] == b;
  }

  lemma {:induction false} SampleIsInTemplate(segs: seq<Segment>, h: Str, from: nat)
    requires At(Sample(segs), h, from)
    ensures InTemplate(segs, h, from, from + |Sample(segs)|)
  {
    if segs == [] {
      assert Fits([], h, from, from, [from]);
    } else {
      var n := |segs| - 1;
      var front, last := Sample(segs[..n]), SampleOf(segs[n]);
      AtSplits(front, last, h, from);
      SampleIsInTemplate(segs[..n], h, from);
      OneMorePiece(segs, h, from, from + |front|, from + |front| + |last|);
    }
  }

  /** The proper splits of `h` are found. */
  ghost predicate FindsAll(h: Str, prefix: seq<Segment>, matching: seq<Segment>, suffix: seq<Segment>) {
    forall start: nat, end: nat :: Splits(h, start, end, prefix, matching, suffix) ==>
      ValueOf(h, prefix, matching, suffix) == Some(h[start..end])
  }

  lemma SampleIsNonempty(segs: seq<Segment>)
    requires segs != [] && segs[|segs| - 1].SingleWildcard?
    ensures Sample(segs) != []
  {
    assert SampleOf(segs[|segs| - 1]) == [97];
  }

  /** Where the samples of prefix and matching stand in a haystack that ends in a colon. */
  lemma ColonAt(a: Str, b: Str, h: Str)
    requires h == a + b + [COLON]
    ensures At(a, h, 0) && At(b, h, |a|) && At([COLON], h, |a| + |b|) && |h| == |a| + |b| + 1
  {
    assert h[0..|h|] == h && a + b + [COLON] == a + (b + [COLON]);
    AtSplits(a, b + [COLON], h, 0);
    AtSplits(b, [COLON], h, |a|);
  }

  /** A haystack whose match ends before a colon. */
  lemma ColonSplit(prefix: seq<Segment>, matching: seq<Segment>, suffix: seq<Segment>, h: Str, end: nat)
    requires Divided(matching, suffix) && h == Sample(prefix) + Sample(matching) + [COLON] && end == |h| - 1
    ensures Splits(h, |Sample(prefix)|, end, prefix, matching, suffix) && h[end] == COLON
  {
    var a, b := Sample(prefix), Sample(matching);
    ColonAt(a, b, h);
    assert h[end] == h[end..end + 1][0];
    SampleIsNonempty(matching);
    SampleIsInTemplate(prefix, h, 0);
    SampleIsInTemplate(matching, h, |a|);
    assert InTemplate(suffix, h, end, |h|) by {
      OnePiece(suffix[0], h, end, |h|);
      assert suffix == [suffix[0]];
    }
  }

  /** It is missed: the `*` that ends the match takes the colon too. */
  lemma DividedMatchIsMissed(prefix: seq<Segment>, matching: seq<Segment>, suffix: seq<Segment>)
    requires SafeTemplate(prefix, matching, suffix) && Divided(matching, suffix)
    ensures !FindsAll(Sample(prefix) + Sample(matching) + [COLON], prefix, matching, suffix)
  {
    var h := Sample(prefix) + Sample(matching) + [COLON];
    var start, end := |Sample(prefix)|, |h| - 1;
    ColonSplit(prefix, matching, suffix, h, end);
    Joined(matching, suffix, h, start, end, |h|);
    assert !Divided(prefix, matching + suffix) by {
      assert matching[|matching| - 1] == (matching + suffix)[|matching| - 1];
    }
    PartIsReached(prefix, matching + suffix, h, 0, start);
    if Reached(matching, h, start, |matching|).Some? {
      LastWildcardStops(matching, h, start);
    }
    assert ValueOf(h, prefix, matching, suffix) != Some(h[start..end]);
  }

  /** And one whose whole match starts with a colon: the `*` before it takes it. */
  lemma DividedPrefixIsMissed(prefix: seq<Segment>, matching: seq<Segment>, suffix: seq<Segment>)
    requires SafeTemplate(prefix, matching, suffix) && Divided(prefix, matching + suffix) && matching != []
    ensures !FindsAll(Sample(prefix) + [COLON], prefix, matching, suffix)
  {
    var a := Sample(prefix);
    var h, start := a + [COLON], |a|;
    assert suffix == [] && matching == [matching[0]] && matching + suffix == matching;
    assert h[0..start] == a && h[start..|h|] == [COLON] && h[start] == COLON;
    SampleIsInTemplate(prefix, h, 0);
    OnePiece(matching[0], h, start, |h|);
    assert Fits([], h, |h|, |h|, [|h|]);
    assert Splits(h, start, |h|, prefix, matching, suffix);
    if ValueOf(h, prefix, matching, suffix) == Some(h[start..|h|]) {
      ValueIsSound(h, prefix, matching, suffix);
      LastWildcardStops(prefix, h, 0);
    }
  }

  /** Exactly which safe templates are complete on every haystack: those with no part boundary between
      the last `*` and the final `**` (and, without a segment to match, there is nothing to find). */
  lemma CompleteIffUndivided(prefix: seq<Segment>, matching: seq<Segment>, suffix: seq<Segment>)
    requires SafeTemplate(prefix, matching, suffix)
    ensures (forall h :: FindsAll(h, prefix, matching, suffix)) <==>
      matching == [] || Undivided(prefix, matching, suffix)
  {
    if matching == [] {
      forall h, start: nat, end: nat
        ensures !Splits(h, start, end, prefix, matching, suffix)
      {
        EmptyPart(h, start, end);
      }
    } else if Divided(matching, suffix) {
      DividedMatchIsMissed(prefix, matching, suffix);
    } else if Divided(prefix, matching + suffix) {
      DividedPrefixIsMissed(prefix, matching, suffix);
    } else {
      forall h, start: nat, end: nat | Splits(h, start, end, prefix, matching, suffix)
        ensures ValueOf(h, prefix, matching, suffix) == Some(h[start..end])
      {
        ValueIsComplete(h, prefix, matching, suffix, start, end);
      }
    }
  }

  /** What a divided template does on colons: "a:b" splits in two ways, and `value` takes the longer
      match. */
  lemma ColonIsAmbiguous()
    ensures var h := [97, COLON, 98];
      && Splits(h, 0, 1, [], [SingleWildcard], [TrailingMultiWildcard])
      && Splits(h, 0, 3, [], [SingleWildcard], [TrailingMultiWildcard])
      && ValueOf(h, [], [SingleWildcard], [TrailingMultiWildcard]) == Some(h)
  {
    var h := [97, COLON, 98];
    assert h[0..1] == [97] && h[1..3] == [COLON, 98] && h[0..3] == h && h[3..3] == [];
    assert Fits([], h, 0, 0, [0]);
    assert Fits([SingleWildcard], h, 0, 1, [0, 1]) && Fits([SingleWildcard], h, 0, 3, [0, 3]);
    assert Fits([TrailingMultiWildcard], h, 1, 3, [1, 3]) && Fits([TrailingMultiWildcard], h, 3, 3, [3, 3]);
    assert ValueOf(h, [], [SingleWildcard], [TrailingMultiWildcard]) == Some(h) by {
      FindsFirst(h, SLASH, 0, 3);
      assert Reached([SingleWildcard], h, 0, 1) == Some(3);
      assert Reached([TrailingMultiWildcard], h, 3, 1) == Some(3);
    }
  }

  /** With the boundary on the other side a match is missed altogether: the `*` of the prefix takes the
      whole of "a:b", and nothing is left of the match ":b". */
  lemma ColonMatchIsMissed()
    ensures var h := [97, COLON, 98];
      Splits(h, 1, 3, [SingleWildcard], [TrailingMultiWildcard], []) &&
      ValueOf(h, [SingleWildcard], [TrailingMultiWildcard], []) == None
  {
    var h := [97, COLON, 98];
    OnePiece(SingleWildcard, h, 0, 1);
    OnePiece(TrailingMultiWildcard, h, 1, 3);
    assert Fits([], h, 3, 3, [3]);
    FindsFirst(h, SLASH, 0, 3);
    assert Reached([SingleWildcard], h, 0, 1) == Some(3);
  }

  // ----- outside the safe templates

  /** The segments `x` and then `y` can never both match. */
  predicate Blocks(x: Segment, y: Segment) {
    x.SingleWildcard? && (y.SingleWildcard? || (y.Literal? && y.text != [] && y.text[0] != SLASH))
  }

  lemma PossessiveConcatenates(a: seq<Segment>, b: seq<Segment>, h: Str, from: nat, mid: nat, to: nat)
    requires InTemplatePossessively(a, h, from, mid) && InTemplatePossessively(b, h, mid, to)
    ensures InTemplatePossessively(a + b, h, from, to)
  {
    var cutsA :| Fits(a, h, from, mid, cutsA) && Possessive(a, h, cutsA, |a|);
    var cutsB :| Fits(b, h, mid, to, cutsB) && Possessive(b, h, cutsB, |b|);
    FitsConcatenate(a, b, h, from, mid, to, cutsA, cutsB);
    var cuts := cutsA + cutsB[1..];
    assert forall i :: |a| <= i < |cuts| ==> cuts[i] == cutsB[i - |a|];
    forall i | 0 <= i < |a + b|
      ensures PieceTakesAll(a + b, h, cuts, i)
    {
      if i < |a| {
        assert PieceTakesAll(a, h, cutsA, i);
      } else {
        assert PieceTakesAll(b, h, cutsB, i - |a|);
      }
    }
  }

  lemma BlockedPiece(x: Segment, y: Segment, h: Str, p: nat, e: nat)
    requires Blocks(x, y) && TakesAll(x, h, p)
    ensures p <= e <= |h| ==> !InSegment(y, h[p..e])
  {
    if p < e <= |h| {
      assert h[p..e][0] == h[p];
    }
  }

  lemma BlockedIsEmpty(segs: seq<Segment>, h: Str, from: nat, to: nat, i: nat)
    requires i + 1 < |segs| && Blocks(segs[i], segs[i + 1])
    ensures !InTemplatePossessively(segs, h, from, to)
  {
    if cuts :| Fits(segs, h, from, to, cuts) && Possessive(segs, h, cuts, |segs|) {
      assert PieceFits(segs, h, cuts, i + 1);
      assert PieceTakesAll(segs, h, cuts, i);
      BlockedPiece(segs[i], segs[i + 1], h, cuts[i + 1], cuts[i + 2]);
    }
  }

  /** No haystack at all gets past a `*` that is followed by another `*` or by a literal that does not
      start with a slash: what the `*` leaves is empty or starts with a slash. */
  lemma BlockedTemplateFindsNothing(h: Str, prefix: seq<Segment>, matching: seq<Segment>,
                                    suffix: seq<Segment>, i: nat)
    requires var t := prefix + matching + suffix; i + 1 < |t| && Blocks(t[i], t[i + 1])
    ensures ValueOf(h, prefix, matching, suffix) == None
  {
    BlockedIsEmpty(prefix + matching + suffix, h, 0, |h|, i);
    forall start: nat, end: nat
      ensures !SplitsPossessively(h, start, end, prefix, matching, suffix)
    {
      if SplitsPossessively(h, start, end, prefix, matching, suffix) {
        PossessiveConcatenates(prefix, matching, h, 0, start, end);
        PossessiveConcatenates(prefix + matching, suffix, h, 0, end, |h|);
      }
    }
    if ValueOf(h, prefix, matching, suffix).Some? {
      ValueIsPossessive(h, prefix, matching, suffix, ValueOf(h, prefix, matching, suffix).value);
    }
  }

  /** Outside the safe templates the greedy matcher misses: `*` followed by the literal b takes the
      b of "ab" itself. */
  lemma UnsafeTemplateMisses()
    ensures var t, h := [SingleWildcard, Literal([98])], [97, 98];
      Splits(h, 0, 2, [], t, []) && ValueOf(h, [], t, []) == None
  {
    var t, h := [SingleWildcard, Literal([98])], [97, 98];
    assert h[0..1] == [97] && h[1..2] == [98];
    assert Fits(t, h, 0, 2, [0, 1, 2]) && Fits([], h, 0, 0, [0]) && Fits([], h, 2, 2, [2]);
    FindsFirst(h, SLASH, 0, 2);
    assert Reached(t, h, 0, 1) == Some(2);
  }

  // ----- the header text

  predicate Unreserved(b: Byte) {
    || 48 <= b <= 57 || 65 <= b <= 90 || 97 <= b <= 122
    || b == 45 || b == 46 || b == 95 || b == 126
  }

  function HexDigit(n: Byte): Byte
    requires n < 16
  {
    if n < 10 then 48 + n else 55 + n
  }

  function EncodeByte(b: Byte): Str {
    if Unreserved(b) then [b] else [PERCENT, HexDigit(b / 16), HexDigit(b % 16)]
  }

  /** `enc` */
  function Encode(s: Str): Str {
    if s == [] then [] else EncodeByte(s[0]) + Encode(s[1..])
  }

  type Pair = (Str, Str)

  function PairText(p: Pair): Str {
    Encode(p.0) + [EQUALS] + Encode(p.1)
  }

  /** The fold of `format`. */
  function FoldPairs(matches: seq<Option<Pair>>, acc: Str): Str {
    if matches == [] then acc
    else if matches[0].None? then FoldPairs(matches[1..], acc)
    else
      var text := PairText(matches[0].value);
      FoldPairs(matches[1..], if acc == [] then text else acc + [AMPERSAND] + text)
  }

  function Format(matches: seq<Option<Pair>>): Str {
    FoldPairs(matches, [])
  }

  function Present(matches: seq<Option<Pair>>): seq<Pair> {
    if matches == [] then []
    else (if matches[0].Some? then [matches[0].value] else []) + Present(matches[1..])
  }

  // ----- reading it back

  function HexValue(c: Byte): (n: Option<Byte>)
    ensures n.Some? ==> n.value < 16
  {
    if 48 <= c <= 57 then Some(c - 48) else if 65 <= c <= 70 then Some(c - 55) else None
  }

  function Decode(s: Str): Option<Str> {
    if s == [] then Some([])
    else if s[0] != 37 then
      match Decode(s[1..]) { case None => None case Some(r) => Some([s[0]] + r) }
    else if |s| < 3 || HexValue(s[1]).None? || HexValue(s[2]).None? then None
    else
      match Decode(s[3..])
      case None => None
      case Some(r) => Some([16 * HexValue(s[1]).value + HexValue(s[2]).value] + r)
  }

  /** Splits on `=` and percent-decodes both sides. */
  function ParsePair(s: Str): Option<Pair> {
    var i := FindFrom(s, 61, 0);
    if i == |s| then None
    else
      var k, v := Decode(s[..i]), Decode(s[i + 1..]);
      if k.None? || v.None? then None else Some((k.value, v.value))
  }

  /** Splits on `&` and parses each piece. */
  function ParseAll(s: Str): Option<seq<Pair>>
    decreases |s|
  {
    var i := FindFrom(s, 38, 0);
    var first := ParsePair(s[..i]);
    if first.None? then None
    else if i == |s| then Some([first.value])
    else
      match ParseAll(s[i + 1..])
      case None => None
      case Some(ps) => Some([first.value] + ps)
  }

  function Parse(s: Str): Option<seq<Pair>> {
    if s == [] then Some([]) else ParseAll(s)
  }

  lemma FindSkips(s: Str, c: Byte, rest: Str)
    requires c !in s
    ensures FindFrom(s + [c] + rest, c, 0) == |s| && FindFrom(s, c, 0) == |s|
  {
    var whole := s + [c] + rest;
    assert whole[|s|] == c;
    assert forall j :: 0 <= j < |s| ==> whole[j] == s[j];
    FindsFirst(whole, c, 0, |s|);
    FindsFirst(s, c, 0, |s|);
  }

  /** Encoded text has no separators in it and decodes to what was encoded. */
  lemma {:induction false} EncodeRoundTrip(s: Str)
    ensures AMPERSAND !in Encode(s) && EQUALS !in Encode(s)
    ensures Decode(Encode(s)) == Some(s)
  {
    if s != [] {
      EncodeRoundTrip(s[1..]);
      var head, tail := EncodeByte(s[0]), Encode(s[1..]);
      assert Encode(s) == head + tail;
      if Unreserved(s[0]) {
        assert (head + tail)[1..] == tail;
      } else {
        assert (head + tail)[3..] == tail;
        assert (head + tail)[1] == HexDigit(s[0] / 16) && (head + tail)[2] == HexDigit(s[0] % 16);
      }
      assert s == [s[0]] + s[1..];
    }
  }

  /** A byte that stands for itself: a letter, a digit, or one of "-._~". */
  predicate Plain(b: Byte) {
    var c := b as char;
    'A' <= c <= 'Z' || 'a' <= c <= 'z' || '0' <= c <= '9' || c in "-._~"
  }

  /** The text of one byte: itself, or a percent sign and two upper-case hex digits. */
  predicate Spells(b: Byte, text: Str) {
    if Plain(b) then text == [b]
    else
      && |text| == 3 && text[0] as char == '%'
      && text[1] as char == "0123456789ABCDEF"[b / 16]
      && text[2] as char == "0123456789ABCDEF"[b % 16]
  }

  lemma {:induction false} EncodeAppends(a: Str, b: Str)
    ensures Encode(a + b) == Encode(a) + Encode(b)
  {
    if a == [] {
      assert a + b == b;
    } else {
      EncodeAppends(a[1..], b);
      assert (a + b)[1..] == a[1..] + b && (a + b)[0] == a[0];
      JoinAssociates(EncodeByte(a[0]), Encode(a[1..]), Encode(b));
    }
  }

  lemma JoinAssociates(a: Str, b: Str, c: Str)
    ensures a + (b + c) == a + b + c
  {
  }

  lemma HexDigitSpells(n: Byte)
    requires n < 16
    ensures HexDigit(n) as char == "0123456789ABCDEF"[n]
  {
  }

  lemma ByteSpells(b: Byte)
    ensures Spells(b, EncodeByte(b))
  {
    HexDigitSpells(b / 16);
    HexDigitSpells(b % 16);
  }

  lemma OneSpells(b: Byte)
    ensures Spells(b, Encode([b]))
  {
    assert Encode([b]) == EncodeByte(b) by {
      assert [b][1..] == [];
    }
    ByteSpells(b);
  }

  /** Encoding spells out each byte in its place. */
  lemma EncodeSpells(before: Str, b: Byte, after: Str)
    ensures Encode(before + [b] + after) == Encode(before) + Encode([b]) + Encode(after)
    ensures Spells(b, Encode([b])) && Encode([]) == []
  {
    OneSpells(b);
    EncodeAppends(before, [b]);
    EncodeAppends(before + [b], after);
  }

  lemma {:induction false} EncodeIsNoShorter(s: Str)
    ensures |Encode(s)| >= |s|
  {
    if s != [] {
      EncodeIsNoShorter(s[1..]);
    }
  }

  /** Text stays as it is exactly if all its bytes stand for themselves. */
  lemma {:induction false} EncodeKeepsIffPlain(s: Str)
    ensures Encode(s) == s <==> forall i :: 0 <= i < |s| ==> Plain(s[i])
  {
    if s != [] {
      var tail := s[1..];
      EncodeKeepsIffPlain(tail);
      EncodeIsNoShorter(tail);
      ByteSpells(s[0]);
      assert s == [s[0]] + tail;
      assert forall i :: 0 <= i < |tail| ==> tail[i] == s[i + 1];
      if Plain(s[0]) {
        assert (Encode(s))[1..] == Encode(tail);
      }
    }
  }

  lemma PairRoundTrip(p: Pair)
    ensures AMPERSAND !in PairText(p) && PairText(p) != []
    ensures ParsePair(PairText(p)) == Some(p)
  {
    EncodeRoundTrip(p.0);
    EncodeRoundTrip(p.1);
    var k, v := Encode(p.0), Encode(p.1);
    FindSkips(k, EQUALS, v);
    assert PairText(p)[..|k|] == k && PairText(p)[|k| + 1..] == v;
  }

  function Join(ps: seq<Pair>): Str {
    if ps == [] then []
    else if |ps| == 1 then PairText(ps[0])
    else PairText(ps[0]) + [AMPERSAND] + Join(ps[1..])
  }

  /** The fold joins the present pairs with ampersands. */
  lemma {:induction false} FoldJoins(matches: seq<Option<Pair>>, acc: Str)
    ensures FoldPairs(matches, acc) ==
      if acc == [] then Join(Present(matches))
      else if Present(matches) == [] then acc
      else acc + [AMPERSAND] + Join(Present(matches))
  {
    if matches != [] {
      if matches[0].None? {
        FoldJoins(matches[1..], acc);
        assert Present(matches) == Present(matches[1..]);
      } else {
        var p, rest := matches[0].value, Present(matches[1..]);
        PairRoundTrip(p);
        FoldJoins(matches[1..], if acc == [] then PairText(p) else acc + [AMPERSAND] + PairText(p));
        JoinStep(p, rest, acc);
      }
    }
  }

  lemma JoinStep(p: Pair, rest: seq<Pair>, acc: Str)
    ensures Join([p] + rest) ==
      if rest == [] then PairText(p) else PairText(p) + [AMPERSAND] + Join(rest)
    ensures rest != [] ==>
      acc + [AMPERSAND] + PairText(p) + [AMPERSAND] + Join(rest) == acc + [AMPERSAND] + Join([p] + rest)
  {
    assert ([p] + rest)[1..] == rest;
    assert acc + [AMPERSAND] + PairText(p) + [AMPERSAND] + Join(rest) ==
           acc + [AMPERSAND] + (PairText(p) + [AMPERSAND] + Join(rest));
  }

  lemma ParsesFirst(text: Str, rest: Str)
    requires AMPERSAND !in text && ParsePair(text).Some?
    ensures ParseAll(text) == Some([ParsePair(text).value])
    ensures ParseAll(rest).Some? ==>
      ParseAll(text + [AMPERSAND] + rest) == Some([ParsePair(text).value] + ParseAll(rest).value)
  {
    var whole := text + [AMPERSAND] + rest;
    FindSkips(text, AMPERSAND, rest);
    assert text[..|text|] == text;
    assert whole[..|text|] == text && whole[|text| + 1..] == rest;
  }

  lemma {:induction false} JoinRoundTrip(ps: seq<Pair>)
    requires ps != []
    ensures Join(ps) != [] && ParseAll(Join(ps)) == Some(ps)
  {
    PairRoundTrip(ps[0]);
    if |ps| == 1 {
      ParsesFirst(PairText(ps[0]), []);
      assert ps == [ps[0]];
    } else {
      JoinRoundTrip(ps[1..]);
      ParsesFirst(PairText(ps[0]), Join(ps[1..]));
      assert ps == [ps[0]] + ps[1..];
    }
  }

  /** Splitting the header on `&` and `=` and percent-decoding recovers exactly the present pairs, in
      order, for all byte strings. */
  lemma FormatRoundTrip(matches: seq<Option<Pair>>)
    ensures Parse(Format(matches)) == Some(Present(matches))
  {
    FoldJoins(matches, []);
    if Present(matches) != [] {
      JoinRoundTrip(Present(matches));
    }
  }

  /** So two lists with the same header have the same present pairs. */
  lemma FormatIsInjective(a: seq<Option<Pair>>, b: seq<Option<Pair>>)
    requires Format(a) == Format(b)
    ensures Present(a) == Present(b)
  {
    FormatRoundTrip(a);
    FormatRoundTrip(b);
  }
}
