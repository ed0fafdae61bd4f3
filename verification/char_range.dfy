/** Character sets: the ranges the compiler emits and the binary search that the matcher runs over them. */
module CharRanges {
  import opened ReSyntax
  import opened ReCompile

  const UINT32_MAX: nat := 0xffff_ffff

  /** Ranges [points[2i], points[2i + 1]), in increasing order; an upper end of UINT32_MAX means no end. */
  ghost predicate CharRange(points: seq<nat>) {
    && |points| % 2 == 0
    && (forall i :: 0 <= i < |points| ==> points[i] <= UINT32_MAX)
    && (forall i :: 0 <= i < |points| / 2 ==> points[2 * i] < points[2 * i + 1])
    && (forall i :: 1 <= i < |points| / 2 ==> points[2 * i - 1] <= points[2 * i])
  }

  /** Whether range i holds c. */
  predicate Holds(points: seq<nat>, i: nat, c: nat) {
    2 * i + 1 < |points| && points[2 * i] <= c < points[2 * i + 1]
  }

  ghost predicate Member(points: seq<nat>, c: nat) {
    exists i: nat :: Holds(points, i, c)
  }

  // What is emitted

  /** The 16-bit form writes the last character of a range, and 0xffff for one without end. */
  function High16(end: nat): nat {
    if end == UINT32_MAX then 0xffff else if end == 0 then UINT32_MAX else end - 1
  }

  function Entry(low: nat, end: nat, wide: bool): (e: seq<byte>)
    ensures |e| == Size(wide)
  {
    if wide then U32(low) + U32(end - 1) else U16(low) + U16(High16(end))
  }

  function Size(wide: bool): nat {
    if wide then 8 else 4
  }

  function Table(points: seq<nat>, n: nat, wide: bool): (t: seq<byte>)
    requires 2 * n <= |points|
    ensures |t| == n * Size(wide)
  {
    if n == 0 then [] else
      TableSize(n, wide);
      Table(points, n - 1, wide) + Entry(points[2 * n - 2], points[2 * n - 1], wide)
  }

  lemma TableSize(n: nat, wide: bool)
    requires n > 0
    ensures n * Size(wide) == (n - 1) * Size(wide) + Size(wide)
  {
  }

  /** 16 bits are enough when the last range ends, or at least starts, below 0x10000. */
  predicate Wide(points: seq<nat>)
    requires |points| >= 2
  {
    var last := points[|points| - 1];
    (if last == UINT32_MAX then points[|points| - 2] else last) > 0xffff
  }

  function RangeCode(points: seq<nat>): seq<byte> {
    if |points| < 2 then Jump(CHAR32, -1)
    else [if Wide(points) then RANGE32 else RANGE] + U16(|points| / 2) + Table(points, |points| / 2, Wide(points))
  }

  /** Emits a character set; too many ranges are an error. */
  method ReEmitRange(s: ReParseState, points: seq<nat>) returns (ok: bool)
    requires CharRange(points)
    modifies s`byteCode
    ensures ok <==> |points| / 2 < 65535
    ensures s.byteCode == if ok then old(s.byteCode) + RangeCode(points) else old(s.byteCode)
  {
    hide U16, U32, CharRange, Table, RangeCode;
    ghost var b := s.byteCode;
    RangeCodeIs(points);
    var len := |points| / 2;
    if len >= 65535 {
      return false;
    }
    ok := true;
    if len == 0 {
      var _ := s.ReEmitOpU32(CHAR32, -1);
    } else {
      EvenPoints(points);
      var high := points[|points| - 1];
      if high == UINT32_MAX {
        high := points[|points| - 2];
      }
      s.ReEmitOpU16(if high <= 0xffff then RANGE else RANGE32, len);
      if high <= 0xffff {
        EmitTable16(s, points);
      } else {
        EmitTable32(s, points);
      }
      AppendAssoc(b, [if high <= 0xffff then RANGE else RANGE32] + U16(len), Table(points, len, high > 0xffff));
    }
  }

  lemma RangeCodeIs(points: seq<nat>)
    ensures |points| < 2 ==> RangeCode(points) == Jump(CHAR32, -1)
    ensures |points| >= 2 ==>
      (RangeCode(points)
       == [if Wide(points) then RANGE32 else RANGE] + U16(|points| / 2) + Table(points, |points| / 2, Wide(points)))
  {
  }

  lemma EvenPoints(points: seq<nat>)
    requires CharRange(points)
    ensures |points| == 2 * (|points| / 2)
  {
  }

  method EmitTable16(s: ReParseState, points: seq<nat>)
    requires CharRange(points)
    modifies s`byteCode
    ensures s.byteCode == old(s.byteCode) + Table(points, |points| / 2, false)
  {
    hide U16, U32;
    ghost var b := s.byteCode;
    var i := 0;
    while 2 * i < |points|
      invariant 0 <= 2 * i <= |points|
      invariant s.byteCode == b + Table(points, i, false)
    {
      ghost var t := Table(points, i, false);
      PutU16(s, points[2 * i]);
      var high := (points[2 * i + 1] - 1) % 0x1_0000_0000;
      if high == UINT32_MAX - 1 {
        high := 0xffff;
      }
      PutU16(s, high);
      EntryIs(points[2 * i], points[2 * i + 1], high);
      AppendAssoc(b, t, U16(points[2 * i]));
      AppendAssoc(b, t + U16(points[2 * i]), U16(high));
      AppendAssoc(t, U16(points[2 * i]), U16(high));
      i := i + 1;
    }
  }

  lemma EntryIs(low: nat, end: nat, high: nat)
    requires 0 < end <= UINT32_MAX
             && high == (if (end - 1) % 0x1_0000_0000 == UINT32_MAX - 1 then 0xffff else (end - 1) % 0x1_0000_0000)
    ensures Entry(low, end, false) == U16(low) + U16(high) && High16(end) == high
  {
    hide U16, U32;
    assert 0 <= end - 1 < 0x1_0000_0000;
  }

  method EmitTable32(s: ReParseState, points: seq<nat>)
    requires CharRange(points)
    modifies s`byteCode
    ensures s.byteCode == old(s.byteCode) + Table(points, |points| / 2, true)
  {
    hide U16, U32;
    ghost var b := s.byteCode;
    var i := 0;
    while 2 * i < |points|
      invariant 0 <= 2 * i <= |points|
      invariant s.byteCode == b + Table(points, i, true)
    {
      ghost var t, low, high := Table(points, i, true), U32(points[2 * i]), U32(points[2 * i + 1] - 1);
      s.byteCode := s.byteCode + U32(points[2 * i]);
      s.byteCode := s.byteCode + U32(points[2 * i + 1] - 1);
      AppendAssoc(b, t, low);
      AppendAssoc(b, t + low, high);
      AppendAssoc(t, low, high);
      i := i + 1;
    }
  }

  method PutU16(s: ReParseState, v: int)
    modifies s`byteCode
    ensures s.byteCode == old(s.byteCode) + U16(v)
  {
    s.byteCode := s.byteCode + U16(v);
  }

  // What is read

  /** The ends of range i, as the matcher reads them. */
  ghost predicate Readable(code: seq<byte>, at: nat, points: seq<nat>, wide: bool, i: nat) {
    && 2 * i + 1 < |points| && at + (i + 1) * Size(wide) <= |code| && i * Size(wide) >= 0
    && (wide ==> GetU32(code, at + 8 * i) == points[2 * i] && GetU32(code, at + 8 * i + 4) + 1 == points[2 * i + 1])
    && (!wide ==>
          GetU16(code, at + 4 * i) == points[2 * i] && GetU16(code, at + 4 * i + 2) == High16(points[2 * i + 1]))
  }

  lemma {:induction false} TableRead(code: seq<byte>, at: nat, points: seq<nat>, n: nat, wide: bool, i: nat)
    requires CharRange(points) && 2 * n <= |points| && At(code, at, Table(points, n, wide)) && i < n
    requires wide || Narrow(points, n)
    ensures Readable(code, at, points, wide, i)
  {
    hide CharRange, U16, U32, Readable, Table, Entry, At, Narrow;
    TableUnfold(points, n, wide);
    AtSplit(code, at, Table(points, n - 1, wide), Entry(points[2 * n - 2], points[2 * n - 1], wide));
    if i == n - 1 {
      EntryRead(code, at, points, wide, i);
    } else {
      NarrowLess(points, n);
      TableRead(code, at, points, n - 1, wide, i);
    }
  }

  lemma TableUnfold(points: seq<nat>, n: nat, wide: bool)
    requires 0 < n && 2 * n <= |points|
    ensures Table(points, n, wide) == Table(points, n - 1, wide) + Entry(points[2 * n - 2], points[2 * n - 1], wide)
    ensures |Table(points, n - 1, wide)| == (n - 1) * Size(wide)
  {
  }

  /** All that the first n ranges write fits 16 bits. */
  ghost predicate Narrow(points: seq<nat>, n: nat)
    requires 2 * n <= |points|
  {
    forall i :: 0 <= i < n ==>
        points[2 * i] <= 0xffff && (points[2 * i + 1] <= 0xffff || points[2 * i + 1] == UINT32_MAX)
  }

  lemma NarrowLess(points: seq<nat>, n: nat)
    requires 0 < n && 2 * n <= |points|
    ensures Narrow(points, n) ==> Narrow(points, n - 1)
  {
  }

  lemma EntryRead(code: seq<byte>, at: nat, points: seq<nat>, wide: bool, i: nat)
    requires CharRange(points) && 2 * i + 1 < |points|
             && At(code, at + i * Size(wide), Entry(points[2 * i], points[2 * i + 1], wide))
    requires wide || Narrow(points, i + 1)
    ensures Readable(code, at, points, wide, i)
  {
    hide U16, U32, At, GetU16, GetU32;
    assert points[2 * i] < points[2 * i + 1];
    assert i < i + 1;
    TableSize(i + 1, wide);
    var low, end := points[2 * i], points[2 * i + 1];
    if wide {
      AtSplit(code, at + 8 * i, U32(low), U32(end - 1));
      U32Read(code, at + 8 * i, low);
      U32Read(code, at + 8 * i + 4, end - 1);
    } else {
      AtSplit(code, at + 4 * i, U16(low), U16(High16(end)));
      U16Read(code, at + 4 * i, low);
      U16Read(code, at + 4 * i + 2, High16(end));
    }
  }

  // Order of the ranges

  lemma {:induction false} Increasing(points: seq<nat>, i: nat, j: nat)
    requires CharRange(points) && i < j && 2 * j + 1 < |points|
    ensures points[2 * i + 1] <= points[2 * j]
  {
    assert points[2 * j - 1] <= points[2 * j];
    if i < j - 1 {
      Increasing(points, i, j - 1);
      assert points[2 * (j - 1)] < points[2 * (j - 1) + 1];
    }
  }

  lemma NarrowAll(points: seq<nat>)
    requires CharRange(points) && |points| >= 2 && !Wide(points)
    ensures Narrow(points, |points| / 2)
  {
    var n := |points| / 2;
    assert |points| == 2 * n;
    forall i | 0 <= i < n
      ensures points[2 * i] <= 0xffff && (points[2 * i + 1] <= 0xffff || points[2 * i + 1] == UINT32_MAX)
    {
      assert points[2 * i] < points[2 * i + 1];
      if i < n - 1 { Increasing(points, i, n - 1); }
    }
  }

  /** Below the first range, or above the last, nothing is a member. */
  lemma OutsideAll(points: seq<nat>, c: nat)
    requires CharRange(points) && |points| >= 2 && (c < points[0] || points[|points| - 1] <= c)
    ensures !Member(points, c)
  {
    var n := |points| / 2;
    forall i: nat ensures !Holds(points, i, c) {
      if 2 * i + 1 < |points| {
        if i > 0 { Increasing(points, 0, i); assert points[0] < points[1]; }
        if i < n - 1 { Increasing(points, i, n - 1); assert points[2 * (n - 1)] < points[2 * (n - 1) + 1]; }
      }
    }
  }

  /** The search interval, between ranges known to be below c and ranges known to be above it. */
  ghost predicate Search(points: seq<nat>, c: nat, idxMin: nat, idxMax: int) {
    && idxMin <= idxMax + 1 && idxMax < |points| / 2
    && (forall i :: 0 <= i < idxMin && 2 * i + 1 < |points| ==> points[2 * i + 1] <= c)
    && (forall i :: idxMax < i && 2 * i + 1 < |points| && 0 <= i ==> c < points[2 * i])
  }

  lemma SearchLeft(points: seq<nat>, c: nat, idxMin: nat, idxMax: int, idx: nat)
    requires CharRange(points) && Search(points, c, idxMin, idxMax) && idxMin <= idx <= idxMax && c < points[2 * idx]
    ensures Search(points, c, idxMin, idx - 1)
  {
    forall i | idx - 1 < i && 2 * i + 1 < |points| && 0 <= i ensures c < points[2 * i] {
      if i > idx { Increasing(points, idx, i); assert points[2 * idx] < points[2 * idx + 1]; }
    }
  }

  lemma SearchRight(points: seq<nat>, c: nat, idxMin: nat, idxMax: int, idx: nat)
    requires CharRange(points) && Search(points, c, idxMin, idxMax) && idxMin <= idx <= idxMax
             && points[2 * idx + 1] <= c
    ensures Search(points, c, idx + 1, idxMax)
  {
    forall i | 0 <= i < idx + 1 && 2 * i + 1 < |points| ensures points[2 * i + 1] <= c {
      if i < idx { Increasing(points, i, idx); assert points[2 * idx] < points[2 * idx + 1]; }
    }
  }

  lemma SearchEmpty(points: seq<nat>, c: nat, idxMin: nat, idxMax: int)
    requires Search(points, c, idxMin, idxMax) && idxMin > idxMax
    ensures !Member(points, c)
  {
    forall i: nat ensures !Holds(points, i, c) {
    }
  }

  lemma SearchStart(points: seq<nat>, c: nat)
    requires CharRange(points) && |points| >= 2
    ensures Search(points, c, 0, |points| / 2 - 1)
  {
  }

  lemma LastRange(points: seq<nat>)
    requires CharRange(points) && |points| >= 2
    ensures |points| == 2 * (|points| / 2) && points[0] < points[1]
  {
    assert points[2 * 0] < points[2 * 0 + 1];
  }

  /** The written upper end 0xffff stands for a range without end, and holds every character from there on. */
  lemma LastHolds(points: seq<nat>, c: nat)
    requires CharRange(points) && |points| >= 2 && Narrow(points, |points| / 2) && 0xffff <= c < UINT32_MAX
    ensures High16(points[|points| - 1]) == 0xffff ==> Member(points, c)
    ensures High16(points[|points| - 1]) == 0xffff <==> points[|points| - 1] == UINT32_MAX
  {
    LastRange(points);
    var i := |points| / 2 - 1;
    assert points[2 * i] <= 0xffff && points[2 * i] < points[2 * i + 1];
    assert points[|points| - 1] == UINT32_MAX ==> Holds(points, i, c);
  }

  /** Comparing with what is written is comparing with the set's own end. */
  lemma PastEnd(points: seq<nat>, c: nat, i: nat)
    requires CharRange(points) && 2 * i + 1 < |points| && (points[|points| - 1] == UINT32_MAX ==> c < 0xffff)
    ensures c > High16(points[2 * i + 1]) <==> points[2 * i + 1] <= c
  {
    LastRange(points);
    var n := |points| / 2;
    assert points[2 * i] < points[2 * i + 1];
    if i < n - 1 {
      Increasing(points, i, n - 1);
      assert points[2 * (n - 1)] < points[2 * (n - 1) + 1];
    }
  }

  lemma HeadRead(code: seq<byte>, pc: nat, points: seq<nat>, wide: bool)
    requires |points| / 2 < 65535 && At(code, pc, U16(|points| / 2) + Table(points, |points| / 2, wide))
    ensures pc + 2 <= |code| && GetU16(code, pc) == |points| / 2 && At(code, pc + 2, Table(points, |points| / 2, wide))
  {
    hide U16, GetU16;
    AtSplit(code, pc, U16(|points| / 2), Table(points, |points| / 2, wide));
    U16Read(code, pc, |points| / 2);
  }

  lemma Found(points: seq<nat>, c: nat, i: nat)
    requires Holds(points, i, c)
    ensures Member(points, c)
  {
  }

  lemma Entry16Is(code: seq<byte>, at: nat, points: seq<nat>, i: nat)
    requires Readable(code, at, points, false, i)
    ensures 2 * i + 1 < |points| && at + 4 * i + 4 <= |code|
    ensures GetU16(code, at + i * 4) == points[2 * i] && GetU16(code, at + i * 4 + 2) == High16(points[2 * i + 1])
  {
  }

  lemma Entry32Is(code: seq<byte>, at: nat, points: seq<nat>, i: nat)
    requires Readable(code, at, points, true, i)
    ensures 2 * i + 1 < |points| && at + 8 * i + 8 <= |code|
    ensures GetU32(code, at + i * 8) == points[2 * i] && GetU32(code, at + i * 8 + 4) + 1 == points[2 * i + 1]
  {
  }

  /** REOP_range: whether c is in the set, and where the code goes on. */
  method MatchRange(code: seq<byte>, pc0: nat, c: nat, ghost points: seq<nat>) returns (matched: bool, pc: nat)
    requires CharRange(points) && 2 <= |points| && |points| / 2 < 65535 && !Wide(points) && c < UINT32_MAX
    requires At(code, pc0, U16(|points| / 2) + Table(points, |points| / 2, false))
    ensures matched <==> Member(points, c)
    ensures matched ==> pc == pc0 + 2 + 4 * (|points| / 2)
  {
    hide *;
    HeadRead(code, pc0, points, false);
    NarrowAll(points);
    LastRange(points);
    var n: nat := GetU16(code, pc0);
    pc := pc0 + 2;
    TableRead(code, pc, points, n, false, 0);
    Entry16Is(code, pc, points, 0);
    var low := GetU16(code, pc + 0 * 4);
    if c < low {
      OutsideAll(points, c);
      return false, pc;
    }
    var idxMin: nat, idxMax: nat := 0, n - 1;
    TableRead(code, pc, points, n, false, idxMax);
    Entry16Is(code, pc, points, idxMax);
    var high := GetU16(code, pc + idxMax * 4 + 2);
    if c >= 0xffff { LastHolds(points, c); }
    if c >= 0xffff && high == 0xffff {
      return true, pc + 4 * n;
    }
    PastEnd(points, c, idxMax);
    if c > high {
      OutsideAll(points, c);
      return false, pc;
    }
    SearchStart(points, c);
    while idxMin <= idxMax
      invariant idxMin <= idxMax + 1 && idxMax < n && Search(points, c, idxMin, idxMax)
      decreases idxMax + 1 - idxMin
    {
      var idx := (idxMin + idxMax) / 2;
      TableRead(code, pc, points, n, false, idx);
      Entry16Is(code, pc, points, idx);
      PastEnd(points, c, idx);
      low := GetU16(code, pc + idx * 4);
      high := GetU16(code, pc + idx * 4 + 2);
      if c < low {
        SearchLeft(points, c, idxMin, idxMax, idx);
        idxMax := idx - 1;
      } else if c > high {
        SearchRight(points, c, idxMin, idxMax, idx);
        idxMin := idx + 1;
      } else {
        Found(points, c, idx);
        return true, pc + 4 * n;
      }
    }
    SearchEmpty(points, c, idxMin, idxMax);
    return false, pc;
  }

  /** REOP_range32. */
  method MatchRange32(code: seq<byte>, pc0: nat, c: nat, ghost points: seq<nat>) returns (matched: bool, pc: nat)
    requires CharRange(points) && 2 <= |points| && |points| / 2 < 65535 && c < UINT32_MAX
    requires At(code, pc0, U16(|points| / 2) + Table(points, |points| / 2, true))
    ensures matched <==> Member(points, c)
    ensures matched ==> pc == pc0 + 2 + 8 * (|points| / 2)
  {
    hide *;
    HeadRead(code, pc0, points, true);
    LastRange(points);
    var n: nat := GetU16(code, pc0);
    pc := pc0 + 2;
    TableRead(code, pc, points, n, true, 0);
    Entry32Is(code, pc, points, 0);
    var low := GetU32(code, pc + 0 * 8);
    if c < low {
      OutsideAll(points, c);
      return false, pc;
    }
    var idxMin: nat, idxMax: nat := 0, n - 1;
    TableRead(code, pc, points, n, true, idxMax);
    Entry32Is(code, pc, points, idxMax);
    var high := GetU32(code, pc + idxMax * 8 + 4);
    if c > high {
      OutsideAll(points, c);
      return false, pc;
    }
    SearchStart(points, c);
    while idxMin <= idxMax
      invariant idxMin <= idxMax + 1 && idxMax < n && Search(points, c, idxMin, idxMax)
      decreases idxMax + 1 - idxMin
    {
      var idx := (idxMin + idxMax) / 2;
      TableRead(code, pc, points, n, true, idx);
      Entry32Is(code, pc, points, idx);
      low := GetU32(code, pc + idx * 8);
      high := GetU32(code, pc + idx * 8 + 4);
      if c < low {
        SearchLeft(points, c, idxMin, idxMax, idx);
        idxMax := idx - 1;
      } else if c > high {
        SearchRight(points, c, idxMin, idxMax, idx);
        idxMin := idx + 1;
      } else {
        Found(points, c, idx);
        return true, pc + 8 * n;
      }
    }
    SearchEmpty(points, c, idxMin, idxMax);
    return false, pc;
  }

  /** What was emitted for a set, run on a character, decides membership; an empty set matches no character. */
  method MatchSet(code: seq<byte>, pc0: nat, c: nat, ghost points: seq<nat>) returns (matched: bool, pc: nat)
    requires CharRange(points) && |points| / 2 < 65535 && c < UINT32_MAX && At(code, pc0, RangeCode(points))
    ensures matched <==> Member(points, c)
    ensures matched ==> pc == pc0 + |RangeCode(points)|
  {
    hide CharRange, U16, U32, GetU16, GetU32, Member, Wide;
    ghost var n := |points| / 2;
    SetParts(code, pc0, points);
    if code[pc0] == CHAR32 {
      NoMember(points, c);
      matched := GetU32(code, pc0 + 1) == c;
      pc := pc0 + 5;
    } else if code[pc0] == RANGE {
      matched, pc := MatchRange(code, pc0 + 1, c, points);
    } else {
      matched, pc := MatchRange32(code, pc0 + 1, c, points);
    }
  }

  lemma SetParts(code: seq<byte>, pc: nat, points: seq<nat>)
    requires CharRange(points) && At(code, pc, RangeCode(points))
    ensures pc < |code|
    ensures |points| < 2 ==>
              pc + 5 <= |code| && code[pc] == CHAR32 && GetU32(code, pc + 1) == UINT32_MAX && |RangeCode(points)| == 5
    ensures |points| >= 2 ==>
      (var n, wide := |points| / 2, Wide(points);
       code[pc] == (if wide then RANGE32 else RANGE) && At(code, pc + 1, U16(n) + Table(points, n, wide))
       && |RangeCode(points)| == 3 + n * Size(wide))
  {
    hide U16, U32, GetU32, CharRange, Wide;
    if |points| < 2 {
      AtSplit(code, pc, [CHAR32], U32(-1));
      U32Read(code, pc + 1, -1);
      assert code[pc..pc + 1][0] == code[pc];
    } else {
      var n, wide := |points| / 2, Wide(points);
      var op := if wide then RANGE32 else RANGE;
      AppendAssoc([op], U16(n), Table(points, n, wide));
      AtSplit(code, pc, [op], U16(n) + Table(points, n, wide));
      assert code[pc..pc + 1][0] == code[pc];
    }
  }

  lemma NoMember(points: seq<nat>, c: nat)
    ensures |points| < 2 ==> !Member(points, c)
  {
    if |points| < 2 {
      forall i: nat ensures !Holds(points, i, c) {
      }
    }
  }
}
