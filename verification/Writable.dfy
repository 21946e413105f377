/** How much plaintext a number of bytes on the wire carries: src/tls_write.c:187-257. The answer is
    the largest that ch_write's own records, counted one by one, fit. */
module Writable {
  import opened Arith

  const OVERHEAD: nat := 22
  const UPDATE: nat := 27

  /** The data records a write key has left before a KeyUpdate; SIZE_MAX in the source is no limit. */
  datatype Room = Unlimited | Records(n: nat)

  function Next(r: Room): Room
    requires r != Records(0)
  {
    if r.Unlimited? then r else Records(r.n - 1)
  }

  /** The bytes ch_write puts on the wire for n bytes: record after record, and a KeyUpdate whenever
      the key has no record left. */
  ghost function Wire(n: nat, limit: nat, room: Room, perKey: Room): nat
    requires limit > 0 && perKey != Records(0)
    decreases n, if room == Records(0) then 1 else 0
  {
    if n == 0 then 0
    else if room == Records(0) then UPDATE + Wire(n, limit, perKey, perKey)
    else if n <= limit then n + OVERHEAD
    else limit + OVERHEAD + Wire(n - limit, limit, Next(room), perKey)
  }

  /** One record of a write, with the KeyUpdate before it when the key has none left. */
  lemma {:induction false} WireStep(n: nat, k: nat, limit: nat, room: Room, perKey: Room)
    requires limit > 0 && perKey != Records(0) && n > 0 && k == (if n <= limit then n else limit)
    ensures var now, first := if room == Records(0) then perKey else room, if room == Records(0) then UPDATE else 0;
            Wire(n, limit, room, perKey) == first + k + OVERHEAD + Wire(n - k, limit, Next(now), perKey)
  {
    var now := if room == Records(0) then perKey else room;
    assert Wire(n, limit, now, perKey) == k + OVERHEAD + Wire(n - k, limit, Next(now), perKey);
  }

  /** The records n bytes take. */
  ghost function Count(n: nat, limit: nat): nat
    requires limit > 0
  {
    if n == 0 then 0 else if n <= limit then 1 else 1 + Count(n - limit, limit)
  }

  /** records_fill: the most plaintext cap bytes carry with no KeyUpdate among them, and its records. */
  function RecordsFill(cap: nat, limit: nat): (r: (nat, nat))
    requires limit > 0
  {
    var whole := cap / (limit + OVERHEAD);
    var inWhole := whole * limit;
    var overhead := (whole + 1) * OVERHEAD;
    var withOneMore := if cap > overhead then cap - overhead else 0;
    if withOneMore > inWhole then (withOneMore, whole + 1) else (inWhole, whole)
  }

  lemma {:induction false} CountBounds(n: nat, limit: nat, k: nat)
    requires limit > 0 && k * limit < n <= (k + 1) * limit
    ensures Count(n, limit) == k + 1
    decreases k
  {
    if k == 0 {
      assert n <= limit;
    } else {
      assert k * limit == (k - 1) * limit + limit && (k + 1) * limit == k * limit + limit;
      CountBounds(n - limit, limit, k - 1);
      MulLe(1, k, limit);
    }
  }

  lemma {:induction false} CountOfWhole(limit: nat, k: nat)
    requires limit > 0
    ensures k * limit >= 0 && Count(k * limit, limit) == k
  {
    if k > 0 {
      assert k * limit == (k - 1) * limit + limit;
      MulLe(0, k - 1, limit);
      CountBounds(k * limit, limit, k - 1);
    }
  }

  /** A byte past k whole records takes more than k records. */
  lemma {:induction false} CountAtLeast(n: nat, limit: nat, k: nat)
    requires limit > 0 && n > k * limit
    ensures Count(n, limit) >= k + 1
    decreases k
  {
    if k > 0 {
      assert k * limit == (k - 1) * limit + limit;
      MulLe(1, k, limit);
      if n > limit { CountAtLeast(n - limit, limit, k - 1); }
    }
  }

  /** The bytes of n bytes' records alone. */
  ghost function Plain(n: nat, limit: nat): nat
    requires limit > 0
  {
    n + OVERHEAD * Count(n, limit)
  }

  lemma {:induction false} WholeRecords(cap: nat, limit: nat, whole: nat)
    requires limit > 0 && whole == cap / (limit + OVERHEAD)
    ensures 0 <= whole * limit
            && whole * limit + OVERHEAD * whole <= cap < whole * limit + limit + OVERHEAD * whole + OVERHEAD
    ensures (whole + 1) * limit == whole * limit + limit
  {
    var d := limit + OVERHEAD;
    assert cap == whole * d + cap % d;
    Distribute(whole, limit, OVERHEAD);
    MulLe(0, whole, limit);
  }

  /** records_fill is exact: what it returns fits in the records it names, and not a byte more does. */
  lemma {:induction false} FillIsExact(cap: nat, limit: nat, n: nat)
    requires limit > 0
    ensures var (f, k) := RecordsFill(cap, limit);
            Count(f, limit) == k && Plain(f, limit) <= cap && (n > f ==> Plain(n, limit) > cap)
  {
    var whole := cap / (limit + OVERHEAD);
    var (f, k) := RecordsFill(cap, limit);
    WholeRecords(cap, limit, whole);
    if k == whole + 1 {
      CountBounds(f, limit, whole);
    } else {
      CountOfWhole(limit, whole);
    }
    if n > f {
      CountAtLeast(n, limit, whole);
    }
  }

  /** The wire's bytes in closed form, while one KeyUpdate is enough. */
  lemma {:induction false} WireIsPlain(n: nat, limit: nat, room: Room, perKey: Room)
    requires limit > 0 && perKey != Records(0)
    requires room.Records? && perKey.Records? ==> Count(n, limit) <= room.n + perKey.n
    ensures Wire(n, limit, room, perKey)
         == Plain(n, limit) + if room.Records? && Count(n, limit) > room.n then UPDATE else 0
    decreases n, if room == Records(0) then 1 else 0
  {
    if n == 0 {
    } else if room == Records(0) {
      WireIsPlain(n, limit, perKey, perKey);
    } else if n > limit {
      WireIsPlain(n - limit, limit, Next(room), perKey);
    }
  }

  /** fill_across_key_update: room whole records, the KeyUpdate, and what the rest carries. */
  function FillAcross(cap: nat, limit: nat, room: nat, perKey: Room): (n: int)
    requires limit > 0
  {
    var left := cap - room * (limit + OVERHEAD);
    var rest := if left > UPDATE then left - UPDATE else 0;
    var (fill, records) := RecordsFill(rest, limit);
    var after := if perKey.Records? && records > perKey.n then perKey.n * limit else fill;
    room * limit + after
  }

  /** tls_writable_len. */
  function WritableLen(cap: nat, limit: nat, room: Room, perKey: Room): (n: int) {
    if limit == 0 then 0
    else
      var (fill, records) := RecordsFill(cap, limit);
      if room.Records? && records > room.n then FillAcross(cap, limit, room.n, perKey) else fill
  }

  /** n bytes go out in at most cap bytes, under the current key and the next. */
  ghost predicate Fits(n: nat, cap: nat, limit: nat, room: Room, perKey: Room)
    requires limit > 0 && perKey != Records(0)
  {
    && (room.Records? && perKey.Records? ==> Count(n, limit) <= room.n + perKey.n)
    && Wire(n, limit, room, perKey) <= cap
  }

  lemma {:induction false} PlainShift(limit: nat, room: nat, a: nat)
    requires limit > 0
    ensures room * limit >= 0 && Count(room * limit + a, limit) == room + Count(a, limit)
    ensures room * (limit + OVERHEAD) >= 0
            && Plain(room * limit + a, limit) == room * (limit + OVERHEAD) + Plain(a, limit)
  {
    if room > 0 {
      PlainShift(limit, room - 1, a);
      assert room * limit == (room - 1) * limit + limit;
      assert room * (limit + OVERHEAD) == (room - 1) * (limit + OVERHEAD) + limit + OVERHEAD;
      OneMoreRecord((room - 1) * limit + a, limit);
    }
  }

  lemma {:induction false} OneMoreRecord(n: nat, limit: nat)
    requires limit > 0
    ensures Count(n + limit, limit) == 1 + Count(n, limit)
  {}

  /** Fewer records than fill names fit whole. */
  lemma {:induction false} WholeFit(cap: nat, limit: nat, k: nat)
    requires limit > 0 && k < RecordsFill(cap, limit).1
    ensures k * (limit + OVERHEAD) <= cap
  {
    var whole := cap / (limit + OVERHEAD);
    assert cap == whole * (limit + OVERHEAD) + cap % (limit + OVERHEAD);
    MulLe(k, whole, limit + OVERHEAD);
  }

  /** What goes behind the KeyUpdate. */
  ghost function Behind(rest: nat, limit: nat, perKey: Room): nat
    requires limit > 0
  {
    var (fill, records) := RecordsFill(rest, limit);
    if perKey.Records? && records > perKey.n then MulLe(0, perKey.n, limit); perKey.n * limit else fill
  }

  /** It is the most that fits there and that one key seals. */
  lemma {:induction false} BehindIsExact(rest: nat, limit: nat, perKey: Room, a: nat)
    requires limit > 0
    ensures var after := Behind(rest, limit, perKey);
            && Plain(after, limit) <= rest && (perKey.Records? ==> Count(after, limit) <= perKey.n)
            && (a > after ==> Plain(a, limit) > rest || (perKey.Records? && Count(a, limit) > perKey.n))
  {
    FillIsExact(rest, limit, a);
    var (fill, records) := RecordsFill(rest, limit);
    if perKey.Records? && records > perKey.n {
      CountOfWhole(limit, perKey.n);
      WholeFit(rest, limit, perKey.n);
      Distribute(perKey.n, limit, OVERHEAD);
      if a > perKey.n * limit { CountAtLeast(a, limit, perKey.n); }
    }
  }

  /** tls_writable_len is exact: its answer fits, and not a byte more does. */
  lemma {:induction false} WritableIsExact(cap: nat, limit: nat, room: Room, perKey: Room, m: nat)
    requires limit > 0 && perKey != Records(0)
    ensures var n := WritableLen(cap, limit, room, perKey);
            n >= 0 && Fits(n, cap, limit, room, perKey) && (m > n ==> !Fits(m, cap, limit, room, perKey))
  {
    var (fill, records) := RecordsFill(cap, limit);
    FillIsExact(cap, limit, m);
    if room.Records? && records > room.n {
      AcrossIsExact(cap, limit, room.n, perKey, m);
    } else {
      WireIsPlain(fill, limit, room, perKey);
      if m > fill && Fits(m, cap, limit, room, perKey) { WireIsPlain(m, limit, room, perKey); }
    }
  }

  lemma {:induction false} AcrossIsExact(cap: nat, limit: nat, room: nat, perKey: Room, m: nat)
    requires limit > 0 && perKey != Records(0) && RecordsFill(cap, limit).1 > room
    ensures var n := FillAcross(cap, limit, room, perKey);
            n >= 0 && Fits(n, cap, limit, Records(room), perKey)
              && (m > n ==> !Fits(m, cap, limit, Records(room), perKey))
  {
    WholeFit(cap, limit, room);
    var left := cap - room * (limit + OVERHEAD);
    var rest := if left > UPDATE then left - UPDATE else 0;
    var after := Behind(rest, limit, perKey);
    var n := FillAcross(cap, limit, room, perKey);
    PlainShift(limit, room, after);
    assert n == room * limit + after;
    AcrossFits(cap, limit, room, perKey, after, left);
    if m > n && Fits(m, cap, limit, Records(room), perKey) {
      AcrossIsMost(cap, limit, room, perKey, m, left);
    }
  }

  lemma {:induction false} AcrossFits(cap: nat, limit: nat, room: nat, perKey: Room, after: nat, left: int)
    requires limit > 0 && perKey != Records(0) && left == cap - room * (limit + OVERHEAD) >= 0
    requires after == Behind(if left > UPDATE then left - UPDATE else 0, limit, perKey)
    ensures room * limit >= 0 && Fits(room * limit + after, cap, limit, Records(room), perKey)
  {
    PlainShift(limit, room, after);
    BehindIsExact(if left > UPDATE then left - UPDATE else 0, limit, perKey, 0);
    WireIsPlain(room * limit + after, limit, Records(room), perKey);
  }

  lemma {:induction false} AcrossIsMost(cap: nat, limit: nat, room: nat, perKey: Room, m: nat, left: int)
    requires limit > 0 && perKey != Records(0) && left == cap - room * (limit + OVERHEAD) >= 0
    requires Fits(m, cap, limit, Records(room), perKey)
    ensures m <= room * limit + Behind(if left > UPDATE then left - UPDATE else 0, limit, perKey)
  {
    if m > room * limit {
      var a := m - room * limit;
      PlainShift(limit, room, a);
      WireIsPlain(m, limit, Records(room), perKey);
      CountAtLeast(a, limit, 0);
      BehindIsExact(left - UPDATE, limit, perKey, a);
    }
  }

  // The same three functions in size_t arithmetic, every sum and product taken modulo size = 2^w.

  /** A sum or a product as a size_t holds it. */
  function Wrap(x: int, size: nat): (r: nat)
    requires size > 0
    ensures 0 <= x < size ==> r == x
  {
    x % size
  }

  function Over(x: nat, d: nat): nat
    requires d > 0
  {
    x / d
  }

  /** records_fill in words. */
  function WordFill(size: nat, cap: nat, limit: nat): (r: (nat, nat))
    requires Word(size, cap, limit)
  {
    var whole := Over(cap, Wrap(limit + OVERHEAD, size));
    var inWhole := Wrap(whole * limit, size);
    var overhead := Wrap(Wrap(whole + 1, size) * OVERHEAD, size);
    var withOneMore := if cap > overhead then cap - overhead else 0;
    if withOneMore > inWhole then (withOneMore, Wrap(whole + 1, size)) else (inWhole, whole)
  }

  /** A size_t of 15 bits or more, a cap it holds, and a limit of a record's plaintext. */
  predicate Word(size: nat, cap: nat, limit: nat) { size >= 0x8000 && cap < size && 0 < limit <= 0x4000 }

  /** fill_across_key_update in words. */
  function WordAcross(size: nat, cap: nat, limit: nat, room: nat, perKey: nat): nat
    requires Word(size, cap, limit)
  {
    var left := Wrap(cap - Wrap(room * Wrap(limit + OVERHEAD, size), size), size);
    var rest := if left > UPDATE then left - UPDATE else 0;
    var (fill, records) := WordFill(size, rest, limit);
    var after := if records > perKey then Wrap(perKey * limit, size) else fill;
    Wrap(Wrap(room * limit, size) + after, size)
  }

  /** tls_writable_len in words; a room of SIZE_MAX is no limit. */
  function WordWritable(size: nat, cap: nat, limit: nat, room: nat, perKey: nat): nat
    requires Word(size, cap, limit)
  {
    var (fill, records) := WordFill(size, cap, limit);
    if records > room then WordAcross(size, cap, limit, room, perKey) else fill
  }

  function RoomOf(size: nat, x: nat): Room { if x + 1 == size then Unlimited else Records(x) }

  /** The overhead of one record more than fit is a word: below 2^15, or below the cap. */
  lemma {:induction false} OverheadFits(size: nat, cap: nat, limit: nat, whole: nat)
    requires Word(size, cap, limit) && whole == cap / (limit + OVERHEAD)
    ensures 0 <= whole * limit < size && whole + 1 < size && (whole + 1) * OVERHEAD < size
  {
    WholeRecords(cap, limit, whole);
    MulLe(1, limit, whole);
  }

  /** No sum or product of records_fill wraps. */
  lemma {:induction false} FillNeverWraps(size: nat, cap: nat, limit: nat)
    requires Word(size, cap, limit)
    ensures WordFill(size, cap, limit) == RecordsFill(cap, limit)
    ensures RecordsFill(cap, limit).1 < size
  {
    var whole := cap / (limit + OVERHEAD);
    OverheadFits(size, cap, limit, whole);
  }

  /** And none of fill_across_key_update does, where tls_writable_len calls it. */
  lemma {:induction false} AcrossNeverWraps(size: nat, cap: nat, limit: nat, room: nat, perKey: nat)
    requires Word(size, cap, limit) && 0 < perKey && RecordsFill(cap, limit).1 > room
    ensures WordAcross(size, cap, limit, room, perKey) == FillAcross(cap, limit, room, RoomOf(size, perKey))
  {
    WholeFit(cap, limit, room);
    MulLe(0, room, limit + OVERHEAD);
    MulLe(0, room, limit);
    Distribute(room, limit, OVERHEAD);
    var left: nat := cap - room * (limit + OVERHEAD);
    var rest := if left > UPDATE then left - UPDATE else 0;
    FillNeverWraps(size, rest, limit);
    AfterFits(size, rest, limit, perKey);
    AcrossWords(size, cap, limit, room, perKey, room * (limit + OVERHEAD), room * limit, rest);
  }

  lemma {:induction false} AcrossWords(size: nat, cap: nat, limit: nat, room: nat, perKey: nat, taken: nat, base: nat,
                                       rest: nat)
    requires Word(size, cap, limit) && taken == room * (limit + OVERHEAD) && base == room * limit <= taken <= cap
    requires rest == if cap - taken > UPDATE then cap - taken - UPDATE else 0
    requires WordFill(size, rest, limit) == RecordsFill(rest, limit) && RecordsFill(rest, limit).1 < size
    requires Behind(rest, limit, RoomOf(size, perKey)) <= rest
    requires RecordsFill(rest, limit).1 > perKey ==> 0 <= perKey * limit < size && perKey + 1 != size
    ensures WordAcross(size, cap, limit, room, perKey) == FillAcross(cap, limit, room, RoomOf(size, perKey))
  {
    assert Wrap(limit + OVERHEAD, size) == limit + OVERHEAD;
    assert Wrap(room * (limit + OVERHEAD), size) == taken && Wrap(cap - taken, size) == cap - taken;
    assert Wrap(room * limit, size) == base;
  }

  /** What goes behind the KeyUpdate is at most what is left for it, and the product it may be is a word. */
  lemma {:induction false} AfterFits(size: nat, rest: nat, limit: nat, perKey: nat)
    requires Word(size, rest, limit) && 0 < perKey
    ensures Behind(rest, limit, RoomOf(size, perKey)) <= rest
    ensures RecordsFill(rest, limit).1 > perKey ==> 0 <= perKey * limit < size && perKey + 1 != size
  {
    BehindIsExact(rest, limit, RoomOf(size, perKey), 0);
    FillNeverWraps(size, rest, limit);
    if RecordsFill(rest, limit).1 > perKey {
      WholeFit(rest, limit, perKey);
      Distribute(perKey, limit, OVERHEAD);
      MulLe(0, perKey, limit);
    }
  }

  /** tls_writable_len on any size_t of 15 bits or more is the exact answer: nothing in it wraps. */
  lemma {:induction false} WritableNeverWraps(size: nat, cap: nat, limit: nat, room: nat, perKey: nat)
    requires Word(size, cap, limit) && room < size && 0 < perKey < size
    ensures WordWritable(size, cap, limit, room, perKey)
            == WritableLen(cap, limit, RoomOf(size, room), RoomOf(size, perKey))
  {
    FillNeverWraps(size, cap, limit);
    if RecordsFill(cap, limit).1 > room { AcrossNeverWraps(size, cap, limit, room, perKey); }
  }
}
