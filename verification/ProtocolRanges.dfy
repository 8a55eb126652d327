/** The list of supported protocols in a disconnect message, compressed to ranges: formatProtocolRanges
    of protocol/limbo/router.go. */
module ProtocolRanges {
  import opened Bits
  import opened Wrappers

  datatype Range = Range(start: int32, end: int32)

  /** Go's %d. */
  function Decimal(n: int): string
    decreases n < 0, if n < 0 then -n else n
  {
    if n < 0 then "-" + Decimal(-n)
    else if n < 10 then ["0123456789"[n]]
    else Decimal(n / 10) + ["0123456789"[n % 10]]
  }

  function FormatProtocolRange(r: Range): string {
    if r.start == r.end then Decimal(r.start) else Decimal(r.start) + "-" + Decimal(r.end)
  }

  function Texts(ranges: seq<Range>): seq<string> {
    seq(|ranges|, i requires 0 <= i < |ranges| => FormatProtocolRange(ranges[i]))
  }

  function Join(parts: seq<string>): string {
    if parts == [] then ""
    else if |parts| == 1 then parts[0]
    else Join(parts[..|parts| - 1]) + ", " + parts[|parts| - 1]
  }

  /** Whether a protocol is taken into a range that ends at prev; the sum wraps around. */
  predicate Continues(prev: int32, protocol: int32) {
    protocol == prev || protocol == Int32(prev + 1)
  }

  /** The ranges of the first protocols, the last range still open. */
  function RangesOf(protocols: seq<int32>): (ranges: seq<Range>)
    ensures |ranges| == 0 <==> |protocols| == 0
    ensures |protocols| > 0 ==> ranges[|ranges| - 1].end == protocols[|protocols| - 1]
  {
    if protocols == [] then []
    else
      var last := |protocols| - 1;
      var before := RangesOf(protocols[..last]);
      if before == [] then [Range(protocols[last], protocols[last])]
      else
        var open := before[|before| - 1];
        if Continues(open.end, protocols[last]) then before[..|before| - 1] + [Range(open.start, protocols[last])]
        else before + [Range(protocols[last], protocols[last])]
  }

  method FormatProtocolRanges(protocols: seq<int32>) returns (text: string)
    ensures text == Join(Texts(RangesOf(protocols)))
  {
    if |protocols| == 0 {
      return "";
    }
    var parts: seq<string> := [];
    var start, prev := protocols[0], protocols[0];
    ghost var closed: seq<Range> := [];
    FirstRange(protocols);
    hide Decimal, FormatProtocolRange, Join, Continues, RangesOf, Texts;
    for i := 1 to |protocols|
      invariant RangesOf(protocols[..i]) == closed + [Range(start, prev)]
      invariant parts == Texts(closed)
    {
      var protocol := protocols[i];
      NextRange(protocols, i, closed, start, prev);
      TextsSnoc(closed, Range(start, prev));
      if protocol == prev || protocol == Int32(prev as int + 1) {
        prev := protocol;
      } else {
        parts := parts + [FormatProtocolRange(Range(start, prev))];
        closed := closed + [Range(start, prev)];
        start, prev := protocol, protocol;
      }
    }
    TextsSnoc(closed, Range(start, prev));
    parts := parts + [FormatProtocolRange(Range(start, prev))];
    assert protocols[..|protocols|] == protocols;
    text := JoinParts(parts);
  }

  lemma TextsSnoc(ranges: seq<Range>, r: Range)
    ensures Texts(ranges + [r]) == Texts(ranges) + [FormatProtocolRange(r)]
  {}

  lemma FirstRange(protocols: seq<int32>)
    requires protocols != []
    ensures RangesOf(protocols[..1]) == [] + [Range(protocols[0], protocols[0])] && Texts([]) == []
  {
    assert protocols[..1][..0] == [];
  }

  lemma NextRange(protocols: seq<int32>, i: nat, closed: seq<Range>, start: int32, prev: int32)
    requires i < |protocols| && RangesOf(protocols[..i]) == closed + [Range(start, prev)]
    ensures RangesOf(protocols[..i + 1])
      == if protocols[i] == prev || protocols[i] == Int32(prev as int + 1) then closed + [Range(start, protocols[i])]
         else closed + [Range(start, prev)] + [Range(protocols[i], protocols[i])]
  {
    assert protocols[..i + 1][..i] == protocols[..i];
  }

  /** strings.Join */
  method JoinParts(parts: seq<string>) returns (text: string)
    ensures text == Join(parts)
  {
    text := "";
    for i := 0 to |parts|
      invariant text == Join(parts[..i])
    {
      assert parts[..i + 1][..i] == parts[..i];
      text := if i == 0 then parts[0] else text + ", " + parts[i];
    }
    assert parts[..|parts|] == parts;
  }

  // ----- meaning

  ghost predicate Covers(ranges: seq<Range>, p: int) {
    exists k | 0 <= k < |ranges| :: Holds(ranges[k], p)
  }

  ghost predicate Upright(ranges: seq<Range>) {
    forall k | 0 <= k < |ranges| :: ranges[k].start <= ranges[k].end
  }

  /** Ascending ranges with at least one number missing between any two. */
  ghost predicate Canonical(ranges: seq<Range>) {
    && Upright(ranges)
    && (forall k | 0 <= k < |ranges| - 1 :: ranges[k].end + 2 <= ranges[k + 1].start)
  }

  ghost predicate Sorted(protocols: seq<int32>) {
    forall i, j | 0 <= i <= j < |protocols| :: protocols[i] <= protocols[j]
  }

  /** The greatest int32 is nowhere followed by the least. */
  ghost predicate NoWrap(protocols: seq<int32>) {
    forall i | 0 <= i < |protocols| - 1 :: protocols[i] == 0x7fff_ffff ==> protocols[i + 1] != -0x8000_0000
  }

  predicate Holds(r: Range, p: int) {
    r.start <= p <= r.end
  }

  lemma CoversSnoc(ranges: seq<Range>, r: Range, p: int)
    ensures Covers(ranges + [r], p) <==> Covers(ranges, p) || Holds(r, p)
  {
    var all := ranges + [r];
    if Covers(ranges, p) {
      var k :| 0 <= k < |ranges| && Holds(ranges[k], p);
      assert Holds(all[k], p);
    }
    if Holds(r, p) {
      assert Holds(all[|ranges|], p);
    }
  }

  /** How one more protocol changes the ranges. */
  ghost predicate Grown(before: seq<Range>, p: int32, after: seq<Range>) {
    if before == [] then after == [Range(p, p)]
    else
      var n := |before| - 1;
      if before[n].end <= p <= before[n].end + 1 then after == before[..n] + [Range(before[n].start, p)]
      else after == before + [Range(p, p)]
  }

  lemma RangesGrow(protocols: seq<int32>)
    requires protocols != [] && NoWrap(protocols)
    ensures var last := |protocols| - 1;
      NoWrap(protocols[..last]) && Grown(RangesOf(protocols[..last]), protocols[last], RangesOf(protocols))
  {
    var last := |protocols| - 1;
    if last > 0 {
      assert RangesOf(protocols[..last])[|RangesOf(protocols[..last])| - 1].end == protocols[last - 1];
      assert protocols[last - 1] == 0x7fff_ffff ==> protocols[last - 1 + 1] != -0x8000_0000;
    }
  }

  lemma {:induction false} StartsBeforeEnd(protocols: seq<int32>)
    requires NoWrap(protocols)
    ensures Upright(RangesOf(protocols))
  {
    hide RangesOf, NoWrap;
    if protocols != [] {
      RangesGrow(protocols);
      StartsBeforeEnd(protocols[..|protocols| - 1]);
    } else {
      assert RangesOf(protocols) == [];
    }
  }

  /** The ranges hold exactly the protocols, in whatever order those come. */
  lemma {:induction false} RangesDenote(protocols: seq<int32>, p: int)
    requires NoWrap(protocols)
    ensures Covers(RangesOf(protocols), p) <==> p in protocols
  {
    if protocols != [] {
      var last := |protocols| - 1;
      RangesDenote(protocols[..last], p);
      StartsBeforeEnd(protocols[..last]);
      RangesGrow(protocols);
      assert protocols == protocols[..last] + [protocols[last]];
      hide RangesOf, NoWrap;
      GrownCovers(RangesOf(protocols[..last]), protocols[last], RangesOf(protocols), p);
    } else {
      assert RangesOf(protocols) == [];
    }
  }

  lemma GrownCovers(before: seq<Range>, q: int32, after: seq<Range>, p: int)
    requires Upright(before) && Grown(before, q, after)
    ensures Covers(after, p) <==> Covers(before, p) || p == q
  {
    hide Covers;
    if before != [] {
      var open, closed := before[|before| - 1], before[..|before| - 1];
      assert before == closed + [open];
      CoversSnoc(closed, open, p);
      CoversSnoc(closed, Range(open.start, q), p);
    }
    CoversSnoc(before, Range(q, q), p);
    assert [] + [Range(q, q)] == [Range(q, q)];
  }

  /** From a sorted list, with or without repetitions, come ascending ranges that cannot be merged. */
  lemma {:induction false} SortedIsCanonical(protocols: seq<int32>)
    requires Sorted(protocols)
    ensures NoWrap(protocols) && Canonical(RangesOf(protocols))
  {
    if protocols != [] {
      var last := |protocols| - 1;
      SortedNeverWraps(protocols);
      RangesGrow(protocols);
      SortedIsCanonical(protocols[..last]);
      var before := RangesOf(protocols[..last]);
      assert last > 0 ==> before[|before| - 1].end == protocols[last - 1] <= protocols[last];
      hide RangesOf, Sorted, NoWrap;
      GrownIsCanonical(before, protocols[last], RangesOf(protocols));
    }
  }

  lemma SortedNeverWraps(protocols: seq<int32>)
    requires Sorted(protocols)
    ensures NoWrap(protocols)
  {
    forall i | 0 <= i < |protocols| - 1
      ensures protocols[i] <= protocols[i + 1]
    {}
  }

  lemma GrownIsCanonical(before: seq<Range>, p: int32, after: seq<Range>)
    requires Canonical(before) && Grown(before, p, after)
    requires before != [] ==> before[|before| - 1].end <= p
    ensures Canonical(after)
  {}

  lemma {:induction false} CoveredFrom(ranges: seq<Range>, p: int)
    requires Canonical(ranges) && ranges != []
    ensures Covers(ranges, p) <==> Holds(ranges[0], p) || Covers(ranges[1..], p)
    ensures Covers(ranges[1..], p) ==> p >= ranges[0].end + 2
    decreases |ranges|
  {
    var rest := ranges[1..];
    if Covers(rest, p) {
      var k :| 0 <= k < |rest| && Holds(rest[k], p);
      assert Holds(ranges[k + 1], p);
      CoveredFrom(rest, p);
    }
    if Covers(ranges, p) && !Holds(ranges[0], p) {
      var k :| 0 <= k < |ranges| && Holds(ranges[k], p);
      assert Holds(rest[k - 1], p);
    }
  }

  /** Two canonical lists that hold the same numbers are the same list. */
  lemma {:induction false} CanonicalUnique(a: seq<Range>, b: seq<Range>)
    requires Canonical(a) && Canonical(b) && forall p :: Covers(a, p) <==> Covers(b, p)
    ensures a == b
    decreases |a|
  {
    if a == [] || b == [] {
      assert a != [] ==> Covers(a, a[0].start);
      assert b != [] ==> Covers(b, b[0].start);
    } else {
      StartsNoLater(a, b);
      StartsNoLater(b, a);
      EndsNoEarlier(a, b);
      EndsNoEarlier(b, a);
      forall p
        ensures Covers(a[1..], p) <==> Covers(b[1..], p)
      {
        CoveredFrom(a, p);
        CoveredFrom(b, p);
      }
      CanonicalUnique(a[1..], b[1..]);
      assert a == [a[0]] + a[1..] && b == [b[0]] + b[1..];
    }
  }

  lemma StartsNoLater(a: seq<Range>, b: seq<Range>)
    requires Canonical(a) && Canonical(b) && a != [] && b != [] && forall p :: Covers(a, p) <==> Covers(b, p)
    ensures a[0].start <= b[0].start
  {
    var p := b[0].start;
    assert Holds(b[0], p) && Covers(b, p);
    CoveredFrom(a, p);
  }

  lemma EndsNoEarlier(a: seq<Range>, b: seq<Range>)
    requires Canonical(a) && Canonical(b) && a != [] && b != [] && forall p :: Covers(a, p) <==> Covers(b, p)
    requires a[0].start == b[0].start
    ensures a[0].end >= b[0].end
  {
    if a[0].end < b[0].end {
      var p := a[0].end + 1;
      assert Holds(b[0], p);
      assert Covers(b, p);
      CoveredFrom(a, p);
    }
  }

  /** So the text of a list depends only on which protocols are in it. */
  lemma TextOfSet(a: seq<int32>, b: seq<int32>)
    requires Sorted(a) && Sorted(b) && forall p: int32 :: p in a <==> p in b
    ensures RangesOf(a) == RangesOf(b)
  {
    SortedIsCanonical(a);
    SortedIsCanonical(b);
    forall p
      ensures Covers(RangesOf(a), p) <==> Covers(RangesOf(b), p)
    {
      RangesDenote(a, p);
      RangesDenote(b, p);
    }
    CanonicalUnique(RangesOf(a), RangesOf(b));
  }

  // ----- reading the text

  predicate IsDigit(c: char) {
    '0' <= c <= '9'
  }

  function ReadDigits(s: string, value: nat): (nat, string) {
    if s != "" && IsDigit(s[0]) then ReadDigits(s[1..], value * 10 + (s[0] as int - '0' as int)) else (value, s)
  }

  function ReadInt(s: string): Option<(int, string)> {
    var negative := s != "" && s[0] == '-';
    var digits := if negative then s[1..] else s;
    if digits == "" || !IsDigit(digits[0]) then None
    else
      var (n, rest) := ReadDigits(digits, 0);
      var value: int := n;
      Some((if negative then -value else value, rest))
  }

  function ReadRange(s: string): Option<((int, int), string)> {
    match ReadInt(s)
    case None => None
    case Some((start, rest)) =>
      if rest == "" || rest[0] != '-' then Some(((start, start), rest))
      else match ReadInt(rest[1..])
        case None => None
        case Some((end, rest)) => Some(((start, end), rest))
  }

  /** The ranges of a text, at most n of them. */
  function ReadRanges(s: string, n: nat): Option<seq<(int, int)>>
    decreases n
  {
    if s == "" then Some([])
    else if n == 0 then None
    else match ReadRange(s)
      case None => None
      case Some((r, rest)) =>
        if |rest| == 1 || (|rest| > 1 && rest[..2] != ", ") then None
        else match ReadRanges(if rest == "" then "" else rest[2..], n - 1)
          case None => None
          case Some(more) => Some([r] + more)
  }

  lemma DigitIs(d: nat)
    requires d < 10
    ensures var c := "0123456789"[d]; IsDigit(c) && c as int - '0' as int == d
  {}

  lemma {:induction false} DigitsRead(n: nat, rest: string)
    ensures Decimal(n) != "" && IsDigit(Decimal(n)[0])
    ensures ReadDigits(Decimal(n) + rest, 0) == ReadDigits(rest, n)
  {
    var digit := "0123456789"[n % 10];
    DigitIs(n % 10);
    assert Decimal(n) == (if n >= 10 then Decimal(n / 10) else "") + [digit];
    assert ([digit] + rest)[1..] == rest;
    hide Decimal;
    hide IsDigit;
    if n >= 10 {
      assert Decimal(n) + rest == Decimal(n / 10) + ([digit] + rest);
      DigitsRead(n / 10, [digit] + rest);
    } else {
      assert Decimal(n) + rest == [digit] + rest;
    }
  }

  lemma IntRead(n: int, rest: string)
    requires rest == "" || !IsDigit(rest[0])
    ensures ReadInt(Decimal(n) + rest) == Some((n, rest))
  {
    var m: nat := if n < 0 then -n else n;
    DigitsRead(m, rest);
    assert Decimal(n) == (if n < 0 then "-" else "") + Decimal(m);
    hide Decimal;
    if n < 0 {
      assert (Decimal(n) + rest)[1..] == Decimal(m) + rest;
    } else {
      assert (Decimal(m) + rest)[0] == Decimal(m)[0];
    }
  }

  lemma RangeRead(r: Range, rest: string)
    requires rest == "" || rest[0] == ','
    ensures ReadRange(FormatProtocolRange(r) + rest) == Some(((r.start as int, r.end as int), rest))
    ensures FormatProtocolRange(r) != ""
  {
    hide Decimal, ReadInt;
    if r.start == r.end {
      IntRead(r.start, rest);
    } else {
      var tail := "-" + Decimal(r.end) + rest;
      assert FormatProtocolRange(r) + rest == Decimal(r.start) + tail;
      IntRead(r.start, tail);
      IntRead(r.end, rest);
      assert tail[1..] == Decimal(r.end) + rest;
    }
    NonEmpty(r.start);
  }

  lemma NonEmpty(n: int)
    ensures Decimal(n) != ""
  {}

  lemma {:induction false} JoinCons(parts: seq<string>)
    requires |parts| > 1
    ensures Join(parts) == parts[0] + (", " + Join(parts[1..]))
  {
    var n := |parts| - 1;
    if n > 1 {
      JoinCons(parts[..n]);
      assert parts[1..][..n - 1] == parts[..n][1..];
    } else {
      assert parts[1..] == [parts[1]] && parts[..1] == [parts[0]];
    }
  }

  function Pairs(ranges: seq<Range>): seq<(int, int)> {
    seq(|ranges|, i requires 0 <= i < |ranges| => (ranges[i].start as int, ranges[i].end as int))
  }

  /** The text of any ranges is read back as those ranges. */
  lemma {:induction false} RangesRead(ranges: seq<Range>)
    ensures ReadRanges(Join(Texts(ranges)), |ranges|) == Some(Pairs(ranges))
    decreases |ranges|
  {
    hide Join, Texts, Pairs, ReadRanges, ReadRange, FormatProtocolRange;
    if ranges == [] {
      NoneRead();
    } else {
      var rest := ranges[1..];
      RangesRead(rest);
      JoinFirst(ranges);
      PairsCons(ranges);
      var first := FormatProtocolRange(ranges[0]);
      var tail := if rest == [] then "" else ", " + Join(Texts(rest));
      RangeRead(ranges[0], tail);
      ReadStep(first + tail, (ranges[0].start as int, ranges[0].end as int), tail, Join(Texts(rest)), |rest|);
    }
  }

  lemma NoneRead()
    ensures ReadRanges(Join(Texts([])), 0) == Some(Pairs([]))
  {
    assert Texts([]) == [] && Pairs([]) == [];
  }

  lemma PairsCons(ranges: seq<Range>)
    requires ranges != []
    ensures Pairs(ranges) == [(ranges[0].start as int, ranges[0].end as int)] + Pairs(ranges[1..])
  {}

  lemma JoinFirst(ranges: seq<Range>)
    requires ranges != []
    ensures Join(Texts(ranges))
      == FormatProtocolRange(ranges[0]) + if |ranges| == 1 then "" else ", " + Join(Texts(ranges[1..]))
    ensures |ranges| == 1 ==> Join(Texts(ranges[1..])) == ""
  {
    hide FormatProtocolRange;
    var parts := Texts(ranges);
    assert parts[1..] == Texts(ranges[1..]);
    JoinOne(parts);
    JoinOne(parts[1..]);
    if |ranges| > 1 {
      JoinCons(parts);
    }
    assert parts[0] + "" == parts[0];
  }

  lemma ReadStep(s: string, r: (int, int), tail: string, more: string, n: nat)
    requires s != "" && ReadRange(s) == Some((r, tail)) && ReadRanges(more, n).Some?
    requires if tail == "" then more == "" else tail == ", " + more
    ensures ReadRanges(s, n + 1) == Some([r] + ReadRanges(more, n).value)
  {
    hide ReadRange;
    if tail != "" {
      assert tail[..2] == ", " && tail[2..] == more;
    }
  }

  lemma JoinOne(parts: seq<string>)
    ensures |parts| == 1 ==> Join(parts) == parts[0]
    ensures parts == [] ==> Join(parts) == ""
  {}

  /** Two sorted lists have one text exactly if they hold the same protocols. */
  lemma TextSaysTheSet(a: seq<int32>, b: seq<int32>)
    requires Sorted(a) && Sorted(b)
    ensures Join(Texts(RangesOf(a))) == Join(Texts(RangesOf(b))) <==> forall p: int32 :: p in a <==> p in b
  {
    if forall p: int32 :: p in a <==> p in b {
      TextOfSet(a, b);
    }
    if Join(Texts(RangesOf(a))) == Join(Texts(RangesOf(b))) {
      SameText(RangesOf(a), RangesOf(b));
      SortedIsCanonical(a);
      SortedIsCanonical(b);
      forall p: int32
        ensures p in a <==> p in b
      {
        RangesDenote(a, p);
        RangesDenote(b, p);
      }
    }
  }

  lemma SameText(a: seq<Range>, b: seq<Range>)
    requires Join(Texts(a)) == Join(Texts(b))
    ensures a == b
  {
    hide Join, Texts, ReadRanges;
    RangesRead(a);
    RangesRead(b);
    MoreReads(Join(Texts(a)), |a|, |a| + |b|);
    MoreReads(Join(Texts(a)), |b|, |a| + |b|);
    assert Pairs(a) == Pairs(b);
    forall i | 0 <= i < |a|
      ensures a[i] == b[i]
    {
      assert Pairs(a)[i] == Pairs(b)[i];
    }
  }

  lemma {:induction false} MoreReads(s: string, n: nat, m: nat)
    requires n <= m && ReadRanges(s, n).Some?
    ensures ReadRanges(s, m) == ReadRanges(s, n)
    decreases n
  {
    hide ReadRange;
    if s != "" {
      var rest := ReadRange(s).value.1;
      MoreReads(if rest == "" then "" else rest[2..], n - 1, m - 1);
    }
  }
}
