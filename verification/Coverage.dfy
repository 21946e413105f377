/** The coverage report of proof/coverage.py: what a harness includes, how a run is dealt to shards, and
    how the shards' parts join to one table. */
module Coverage {
  import opened Common

  type Name = string

  // ---- harness_includes ----

  /** One include of a harness file: a library source, or another harness. */
  datatype Include = Source(name: Name) | Nested(path: Name)

  type Files = map<Name, seq<Include>>

  /** A set that holds every harness its members include. */
  ghost predicate Closed(files: Files, all: set<Name>) {
    forall p, q :: p in all && p in files && Nested(q) in files[p] && q in files ==> q in all
  }

  /** path leads to p: p is in every closed set that holds path. */
  ghost predicate Leads(files: Files, path: Name, p: Name) {
    forall all {:trigger Closed(files, all)} :: path in all && Closed(files, all) ==> p in all
  }

  /** What a call of harness_includes on path finds and marks. */
  ghost predicate Gathered(files: Files, path: Name, was: set<Name>, now: set<Name>, found: set<Name>) {
    && was <= now
    && (if path in files then path in now else now == was)
    && (forall p :: p in now - was ==> p in files && Leads(files, path, p))
    && (forall p, q :: p in now - was && Nested(q) in files[p] && q in files ==> q in now)
    && (forall s :: s in found <==> exists p :: p in now - was && Source(s) in files[p])
  }

  /** The set the recursion shares. */
  class Seen {
    var paths: set<Name>

    constructor ()
      ensures paths == {}
    {
      paths := {};
    }

    /** harness_includes, below the first call. */
    method Includes(files: Files, path: Name) returns (found: set<Name>)
      modifies this
      ensures Gathered(files, path, old(paths), paths, found)
      decreases files.Keys - paths
    {
      found := {};
      if path in paths || path !in files {
        return;
      }
      paths := paths + {path};
      for i := 0 to |files[path]|
        invariant Midway(files, path, old(paths), paths, found, i)
      {
        match files[path][i]
        case Nested(q) =>
          ghost var mid := paths;
          var more := Includes(files, q);
          MidwayNested(files, path, old(paths), mid, found, i, q, paths, more);
          found := found + more;
        case Source(s) =>
          MidwaySource(files, path, old(paths), paths, found, i, s);
          found := found + {s};
      }
      MidwayDone(files, path, old(paths), paths, found);
    }
  }

  /** The loop of harness_includes after i includes of path. */
  ghost predicate Midway(files: Files, path: Name, was: set<Name>, now: set<Name>, found: set<Name>, i: nat) {
    && path in files && path !in was && i <= |files[path]|
    && was <= now && path in now
    && (forall p :: p in now - was ==> p in files && Leads(files, path, p))
    && (forall p, q :: p in now - was - {path} && Nested(q) in files[p] && q in files ==> q in now)
    && (forall k :: 0 <= k < i && files[path][k].Nested? && files[path][k].path in files ==> files[path][k].path in now)
    && (forall s :: s in found <==> Midfound(files, path, was, now, i, s))
  }

  ghost predicate Midfound(files: Files, path: Name, was: set<Name>, now: set<Name>, i: nat, s: Name)
    requires path in files && i <= |files[path]|
    requires forall p :: p in now - was ==> p in files
  {
    || (exists p :: p in now - was - {path} && Source(s) in files[p])
    || (exists k :: 0 <= k < i && files[path][k] == Source(s))
  }

  lemma {:induction false} MidwaySource(files: Files, path: Name, was: set<Name>, now: set<Name>, found: set<Name>,
                                        i: nat, s: Name)
    requires Midway(files, path, was, now, found, i) && i < |files[path]| && files[path][i] == Source(s)
    ensures Midway(files, path, was, now, found + {s}, i + 1)
  {
  }

  lemma {:induction false} MidwayNested(files: Files, path: Name, was: set<Name>, mid: set<Name>, found: set<Name>,
                                        i: nat, q: Name, now: set<Name>, more: set<Name>)
    requires Midway(files, path, was, mid, found, i) && i < |files[path]| && files[path][i] == Nested(q)
    requires Gathered(files, q, mid, now, more)
    ensures Midway(files, path, was, now, found + more, i + 1)
  {}

  lemma {:induction false} MidwayDone(files: Files, path: Name, was: set<Name>, now: set<Name>, found: set<Name>)
    requires path in files && Midway(files, path, was, now, found, |files[path]|)
    ensures Gathered(files, path, was, now, found)
  {
  }

  /** harness_includes from its first call: a source is found exactly when a harness that path leads to
      includes it, whatever cycles the includes make. */
  method HarnessIncludes(files: Files, path: Name) returns (found: set<Name>)
    ensures forall s ::
              s in found <==> exists p :: p in files && path in files && Leads(files, path, p) && Source(s) in files[p]
  {
    var seen := new Seen();
    found := seen.Includes(files, path);
    ghost var now := seen.paths;
    forall p | p in files && path in files && Leads(files, path, p)
      ensures p in now
    {
      assert Closed(files, now);
    }
  }

  // ---- the shards ----

  /** Names index by index: the ones at places congruent to k - 1 modulo n. */
  function Part(names: seq<Name>, k: nat, n: nat): seq<Name>
    requires 1 <= k <= n
  {
    if names == [] then []
    else
      var last := |names| - 1;
      Part(names[..last], k, n) + if last % n == k - 1 then [names[last]] else []
  }

  lemma {:induction false} PlaceMoves(i: nat, d: nat, n: nat)
    requires 0 < d < n
    ensures (i + d) % n != i % n
  {
    if (i + d) % n == i % n {
      var a, b := (i + d) / n, i / n;
      assert d == n * a - n * b;
      NoMultiple(n, a, b, d);
    }
  }

  lemma {:induction false} NoMultiple(n: nat, a: int, b: int, d: nat)
    requires 0 < d < n
    ensures d != n * a - n * b
  {
    if a <= b { assert n * a <= n * b; } else { assert n * a >= n * (b + 1) == n * b + n; }
  }

  lemma {:induction false} PlaceNext(i: nat, n: nat)
    requires n > 0
    ensures (i + n) % n == i % n
  {
    var a, b := (i + n) / n, i / n;
    var r, s := (i + n) % n, i % n;
    assert n + n * b + s == n * a + r;
    if r != s {
      if r > s { NoMultiple(n, b + 1, a, r - s); } else { NoMultiple(n, a, b + 1, s - r); }
    }
  }

  /** Places between two of a part add nothing to it. */
  lemma {:induction false} PartSkips(names: seq<Name>, k: nat, n: nat, from: nat, to: nat)
    requires 1 <= k <= n && from <= to <= |names|
    requires forall j :: from <= j < to ==> j % n != k - 1
    ensures Part(names[..to], k, n) == Part(names[..from], k, n)
  {
    if from < to {
      assert names[..to][..to - 1] == names[..to - 1];
      PartSkips(names, k, n, from, to - 1);
    }
  }

  /** shard_part: every nth name from the kth on. */
  method ShardPart(names: seq<Name>, k: nat, n: nat) returns (part: seq<Name>)
    requires 1 <= k <= n
    ensures part == Part(names, k, n)
  {
    part := [];
    var i: nat := k - 1;
    PlaceStart(k, n);
    if i < |names| { PartSkips(names, k, n, 0, i); } else { PartSkips(names, k, n, 0, |names|); }
    while i < |names|
      invariant i % n == k - 1
      invariant part == Part(names[..if i < |names| then i else |names|], k, n)
      decreases |names| - i
    {
      part := part + [names[i]];
      assert names[..i + 1][..i] == names[..i];
      PartStep(names, k, n, i);
      PlaceNext(i, n);
      i := i + n;
    }
    assert names[..|names|] == names;
  }

  lemma {:induction false} PlaceStart(k: nat, n: nat)
    requires 1 <= k <= n
    ensures forall j: nat :: j < n ==> j % n == j
  {
  }

  lemma {:induction false} PartStep(names: seq<Name>, k: nat, n: nat, i: nat)
    requires 1 <= k <= n && i < |names| && i % n == k - 1
    ensures var to := if i + n < |names| then i + n else |names|;
            Part(names[..to], k, n) == Part(names[..i], k, n) + [names[i]]
  {
    var to := if i + n < |names| then i + n else |names|;
    assert names[..i + 1][..i] == names[..i];
    forall j | i + 1 <= j < to
      ensures j % n != k - 1
    {
      PlaceMoves(i, j - i, n);
    }
    PartSkips(names, k, n, i + 1, to);
  }

  lemma {:induction false} PartHolds(names: seq<Name>, k: nat, n: nat, x: Name)
    requires 1 <= k <= n
    ensures x in Part(names, k, n) <==> exists i :: 0 <= i < |names| && i % n == k - 1 && names[i] == x
  {
    if names != [] {
      var last := |names| - 1;
      PartHolds(names[..last], k, n, x);
      assert forall i :: 0 <= i < last ==> names[..last][i] == names[i];
    }
  }

  /** How often the kth of n parts holds x. */
  ghost function Held(names: seq<Name>, n: nat, x: Name): nat -> nat {
    k => if 1 <= k <= n then multiset(Part(names, k, n))[x] else 0
  }

  /** The sum of h over the shards 1 to m. */
  ghost function Total(h: nat -> nat, m: nat): nat { if m == 0 then 0 else Total(h, m - 1) + h(m) }

  lemma {:induction false} TotalNext(h: nat -> nat, was: nat -> nat, m: nat, place: nat, extra: nat)
    requires forall k {:trigger h(k)} :: 1 <= k <= m ==> h(k) == was(k) + if k == place + 1 then extra else 0
    ensures Total(h, m) == Total(was, m) + if place < m then extra else 0
  {
    if m > 0 {
      TotalNext(h, was, m - 1, place, extra);
      assert h(m) == was(m) + if m == place + 1 then extra else 0;
    }
  }

  lemma {:induction false} TotalNone(h: nat -> nat, m: nat)
    requires forall k {:trigger h(k)} :: 1 <= k <= m ==> h(k) == 0
    ensures Total(h, m) == 0
  {
    if m > 0 {
      TotalNone(h, m - 1);
      assert h(m) == 0;
    }
  }

  /** The last name goes to the part of its place. */
  lemma {:induction false} HeldNext(names: seq<Name>, n: nat, k: nat, x: Name)
    requires names != [] && 1 <= k <= n
    ensures var last := |names| - 1;
            Held(names, n, x)(k)
              == Held(names[..last], n, x)(k) + if k == last % n + 1 && names[last] == x then 1 else 0
  {}

  lemma {:induction false} DealtNext(names: seq<Name>, n: nat, x: Name)
    requires names != [] && n > 0
    ensures var last := |names| - 1;
            Total(Held(names, n, x), n) == Total(Held(names[..last], n, x), n) + if names[last] == x then 1 else 0
  {
    var last := |names| - 1;
    var h, was := Held(names, n, x), Held(names[..last], n, x);
    var place, extra := last % n, if names[last] == x then 1 else 0;
    forall k: nat {:trigger h(k)} | 1 <= k <= n
      ensures h(k) == was(k) + if k == place + 1 then extra else 0
    {
      HeldNext(names, n, k, x);
    }
    TotalNext(h, was, n, place, extra);
  }

  /** The n parts together hold each name exactly as often as the list does. */
  lemma {:induction false} PartsPartition(names: seq<Name>, n: nat, x: Name)
    requires n > 0
    ensures Total(Held(names, n, x), n) == multiset(names)[x]
  {
    if names == [] {
      TotalNone(Held(names, n, x), n);
    } else {
      DealtNext(names, n, x);
      PartsPartition(names[..|names| - 1], n, x);
      assert names == names[..|names| - 1] + [names[|names| - 1]];
    }
  }

  /** In a list that names nothing twice, the part of a name is its place's. */
  lemma {:induction false} PartOfPlace(names: seq<Name>, i: nat, k: nat, n: nat)
    requires Distinct(names) && i < |names| && 1 <= k <= n
    ensures names[i] in Part(names, k, n) <==> i % n == k - 1
  {
    PartHolds(names, k, n, names[i]);
    forall j | 0 <= j < |names| && names[j] == names[i]
      ensures j == i
    {
    }
  }

  /** No part of two or more holds two neighbours of the list. */
  lemma {:induction false} NeighboursApart(names: seq<Name>, i: nat, k: nat, n: nat)
    requires Distinct(names) && i + 1 < |names| && 1 <= k <= n && n > 1
    ensures !(names[i] in Part(names, k, n) && names[i + 1] in Part(names, k, n))
  {
    PlaceMoves(i, 1, n);
    PartOfPlace(names, i, k, n);
    PartOfPlace(names, i + 1, k, n);
  }

  // ---- the merge ----

  type Rows = map<Name, string>

  /** A report file under the merge's directory. */
  datatype Report = Other | PartOf(k: nat, count: nat, rows: Rows)

  /** A cell of the merged table: what the shard wrote, or why there is nothing. */
  datatype Cell = Written(text: string) | NoReport(k: nat, count: nat) | NoRow(k: nat)

  datatype Problem = Silent(k: nat, count: nat, harnesses: nat) | Foreign(k: nat, name: Name)
                   | Absent(k: nat, name: Name)

  /** The row a harness gets from its shard's part. */
  function CellOf(part: Option<Rows>, k: nat, count: nat, name: Name): Cell {
    match part
    case None => NoReport(k, count)
    case Some(rows) => if name in rows then Written(rows[name]) else NoRow(k)
  }

  /** The order sorted gives: a strict order of the names, and the list in that order of any set. */
  datatype Sorter = Sorter(less: (Name, Name) -> bool, sorted: set<Name> -> seq<Name>)

  ghost predicate Increasing(less: (Name, Name) -> bool, names: seq<Name>) {
    forall i, j :: 0 <= i < j < |names| ==> less(names[i], names[j])
  }

  ghost predicate Sorts(sort: Sorter) {
    && (forall x: Name {:trigger sort.less(x, x)} :: !sort.less(x, x))
    && (forall x: Name, y: Name {:trigger sort.less(x, y)} :: sort.less(x, y) ==> !sort.less(y, x))
    && (forall s: set<Name> {:trigger sort.sorted(s)} ::
          Increasing(sort.less, sort.sorted(s)) && forall x :: x in sort.sorted(s) <==> x in s)
  }

  /** One order, one list: increasing lists of the same names are the same. */
  lemma {:induction false} IncreasingUnique(sort: Sorter, a: seq<Name>, b: seq<Name>)
    requires Sorts(sort) && Increasing(sort.less, a) && Increasing(sort.less, b)
    requires forall x :: x in a <==> x in b
    ensures a == b
    decreases |a|
  {
    assert b != [] ==> b[0] in b;
    if a != [] {
      assert a[0] in a;
      var j :| 0 <= j < |b| && b[j] == a[0];
      assert b[0] in b;
      var i :| 0 <= i < |a| && a[i] == b[0];
      assert a[0] == b[0];
      TailNames(sort, a, b);
      TailNames(sort, b, a);
      IncreasingUnique(sort, a[1..], b[1..]);
      assert a == [a[0]] + a[1..] && b == [b[0]] + b[1..];
    }
  }

  lemma {:induction false} TailNames(sort: Sorter, a: seq<Name>, b: seq<Name>)
    requires Sorts(sort) && Increasing(sort.less, a) && a != [] && b != [] && a[0] == b[0]
    requires forall x :: x in a ==> x in b
    ensures forall x :: x in a[1..] ==> x in b[1..]
    ensures Increasing(sort.less, a[1..])
  {
    forall x | x in a[1..]
      ensures x in b[1..]
    {
      var i :| 0 <= i < |a| - 1 && a[1..][i] == x;
      assert a[i + 1] == x && sort.less(a[0], a[i + 1]);
      assert x in b;
      var j :| 0 <= j < |b| && b[j] == x;
      assert b[1..][j - 1] == x;
    }
  }

  ghost predicate Whole(part: Option<Rows>, own: seq<Name>) {
    part.Some? && forall x :: x in part.value <==> x in own
  }

  class Merging {
    var rows: map<Name, Cell>
    var problems: seq<Problem>

    constructor ()
      ensures rows == map[] && problems == []
    {
      rows, problems := map[], [];
    }

    /** shard_rows: a row for each of the shard's harnesses, and a problem exactly when its part is missing or
        holds another set of harnesses. */
    method ShardRows(sort: Sorter, names: seq<Name>, k: nat, count: nat, part: Option<Rows>)
      requires 1 <= k <= count && Sorts(sort)
      modifies this
      ensures forall x :: x in rows <==> x in old(rows) || x in Part(names, k, count)
      ensures forall x ::
                x in rows ==> rows[x] == if x in Part(names, k, count) then CellOf(part, k, count, x) else old(rows)[x]
      ensures old(problems) <= problems
      ensures problems == old(problems) <==> Whole(part, Part(names, k, count))
    {
      var own := ShardPart(names, k, count);
      if part.None? {
        problems := problems + [Silent(k, count, |own|)];
      } else {
        Strangers(sort, k, own, part.value);
      }
      OwnRows(own, k, count, part);
    }

    method Strangers(sort: Sorter, k: nat, own: seq<Name>, part: Rows)
      requires Sorts(sort)
      modifies this`problems
      ensures old(problems) <= problems
      ensures problems == old(problems) <==> forall x :: x in part ==> x in own
    {
      var odd := sort.sorted(part.Keys - set x | x in own);
      assert forall x :: x in odd <==> x in part && x !in own;
      for i := 0 to |odd|
        invariant old(problems) <= problems && |problems| == |old(problems)| + i
      {
        problems := problems + [Foreign(k, odd[i])];
      }
      if odd != [] { assert odd[0] in odd; }
    }

    method OwnRows(own: seq<Name>, k: nat, count: nat, part: Option<Rows>)
      modifies this
      ensures forall x :: x in rows <==> x in old(rows) || x in own
      ensures forall x :: x in rows ==> rows[x] == if x in own then CellOf(part, k, count, x) else old(rows)[x]
      ensures old(problems) <= problems
      ensures problems == old(problems) <==> part.None? || forall x :: x in own ==> x in part.value
    {
      for i := 0 to |own|
        invariant forall x :: x in rows <==> x in old(rows) || x in own[..i]
        invariant forall x :: x in rows ==> rows[x] == if x in own[..i] then CellOf(part, k, count, x) else old(rows)[x]
        invariant old(problems) <= problems
        invariant problems == old(problems) <==> part.None? || forall x :: x in own[..i] ==> x in part.value
      {
        assert own[..i + 1] == own[..i] + [own[i]];
        if part.Some? && own[i] !in part.value {
          assert own[i] in own[..i + 1];
          problems := problems + [Absent(k, own[i])];
        }
        rows := rows[own[i] := CellOf(part, k, count, own[i])];
      }
      assert own[..|own|] == own;
    }
  }

  /** The rows the shard's report holds, if there is one. */
  ghost function PartFor(files: seq<Report>, k: nat): Option<Rows> {
    if files == [] then None
    else
      var last := files[|files| - 1];
      if last.PartOf? && last.k == k then Some(last.rows) else PartFor(files[..|files| - 1], k)
  }

  ghost predicate Usable(file: Report) { file.PartOf? && 1 <= file.k <= file.count }

  /** Every file is a shard's part, and no shard has two. */
  ghost predicate Readable(files: seq<Report>) {
    && (forall i :: 0 <= i < |files| ==> Usable(files[i]))
    && (forall i, j :: 0 <= i < j < |files| ==> files[i].k != files[j].k)
  }

  /** There is one exactly when a file names the shard, and then its rows are that file's. */
  lemma {:induction false} PartForFound(files: seq<Report>, k: nat)
    requires Readable(files)
    ensures PartFor(files, k).Some? <==> exists i :: 0 <= i < |files| && Usable(files[i]) && files[i].k == k
    ensures forall i :: 0 <= i < |files| && files[i].k == k ==> PartFor(files, k) == Some(files[i].rows)
  {
    if files != [] { PartForFound(files[..|files| - 1], k); }
  }

  /** read_parts: the parts by shard, and the counts they name. */
  method ReadParts(files: seq<Report>) returns (ok: bool, parts: map<nat, Rows>, counts: set<nat>)
    ensures ok <==> Readable(files)
    ensures ok ==> forall k :: if k in parts then PartFor(files, k) == Some(parts[k]) else PartFor(files, k) == None
    ensures ok ==> forall i :: 0 <= i < |files| ==> files[i].k in parts && parts[files[i].k] == files[i].rows
    ensures ok ==> forall c :: c in counts <==> exists i :: 0 <= i < |files| && Usable(files[i]) && files[i].count == c
  {
    parts, counts := map[], {};
    for n := 0 to |files|
      invariant Readable(files[..n])
      invariant forall k ::
                  if k in parts then PartFor(files[..n], k) == Some(parts[k]) else PartFor(files[..n], k) == None
      invariant forall i :: 0 <= i < n ==> files[i].k in parts && parts[files[i].k] == files[i].rows
      invariant forall c :: c in counts <==> exists i :: 0 <= i < n && Usable(files[i]) && files[i].count == c
    {
      var file := files[n];
      if !(file.PartOf? && 1 <= file.k <= file.count) {
        assert !Usable(files[n]);
        return false, parts, counts;
      }
      PartForFound(files[..n], file.k);
      if file.k in parts {
        return false, parts, counts;
      }
      assert files[..n + 1][..n] == files[..n];
      parts, counts := parts[file.k := file.rows], counts + {file.count};
    }
    assert files[..|files|] == files;
    return true, parts, counts;
  }

  datatype Outcome = Stopped | Ended(code: nat, table: seq<(Name, Cell)>)

  ghost predicate SameCount(files: seq<Report>) {
    forall i, j ::
      0 <= i < |files| && 0 <= j < |files| && files[i].PartOf? && files[j].PartOf? ==> files[i].count == files[j].count
  }

  /** The row of the ith harness: what the part of its shard says. */
  ghost function RowOf(names: seq<Name>, files: seq<Report>, n: nat, i: nat): (Name, Cell)
    requires i < |names| && n > 0
  {
    (names[i], CellOf(PartFor(files, i % n + 1), i % n + 1, n, names[i]))
  }

  /** The rows after shards 1 to m. */
  ghost predicate RowsSoFar(rows: map<Name, Cell>, names: seq<Name>, files: seq<Report>, n: nat, m: nat)
    requires n > 0
  {
    && (forall i :: 0 <= i < |names| ==> (names[i] in rows <==> i % n < m))
    && (forall i :: 0 <= i < |names| && i % n < m ==> rows[names[i]] == RowOf(names, files, n, i).1)
    && (forall x :: x in rows ==> x in names)
  }

  lemma {:induction false} RowsNext(rows: map<Name, Cell>, more: map<Name, Cell>, names: seq<Name>, files: seq<Report>,
                                    n: nat, k: nat)
    requires Distinct(names) && 1 <= k <= n && RowsSoFar(rows, names, files, n, k - 1)
    requires forall x :: x in more <==> x in rows || x in Part(names, k, n)
    requires forall x ::
               x in more ==> more[x] == if x in Part(names, k, n) then CellOf(PartFor(files, k), k, n, x) else rows[x]
    ensures RowsSoFar(more, names, files, n, k)
  {
    forall i | 0 <= i < |names|
      ensures names[i] in more <==> i % n < k
      ensures i % n < k ==> more[names[i]] == RowOf(names, files, n, i).1
    {
      PartOfPlace(names, i, k, n);
    }
    forall x | x in more
      ensures x in names
    {
      PartHolds(names, k, n, x);
    }
  }

  ghost predicate AllWhole(names: seq<Name>, files: seq<Report>, n: nat, m: nat)
    requires m <= n
  {
    forall k :: 1 <= k <= m ==> Whole(PartFor(files, k), Part(names, k, n))
  }

  lemma {:induction false} OneMoreWhole(names: seq<Name>, files: seq<Report>, n: nat, m: nat)
    requires m < n
    ensures AllWhole(names, files, n, m + 1) <==>
            AllWhole(names, files, n, m) && Whole(PartFor(files, m + 1), Part(names, m + 1, n))
  {
    forall k | 1 <= k <= m && AllWhole(names, files, n, m + 1)
      ensures Whole(PartFor(files, k), Part(names, k, n))
    {
    }
  }

  /** One shard more. */
  method JoinShard(merging: Merging, sort: Sorter, names: seq<Name>, ghost files: seq<Report>, part: Option<Rows>,
                   n: nat, m: nat)
    requires Sorts(sort) && Distinct(names) && m < n && part == PartFor(files, m + 1)
    requires RowsSoFar(merging.rows, names, files, n, m)
    requires merging.problems == [] <==> AllWhole(names, files, n, m)
    modifies merging
    ensures RowsSoFar(merging.rows, names, files, n, m + 1)
    ensures merging.problems == [] <==> AllWhole(names, files, n, m + 1)
  {
    ghost var rows := merging.rows;
    merging.ShardRows(sort, names, m + 1, n, part);
    RowsNext(rows, merging.rows, names, files, n, m + 1);
    OneMoreWhole(names, files, n, m);
  }

  /** The loop of merge_reports over the shards. */
  method JoinShards(sort: Sorter, names: seq<Name>, ghost files: seq<Report>, parts: map<nat, Rows>, n: nat)
    returns (rows: map<Name, Cell>, problems: seq<Problem>)
    requires Sorts(sort) && Distinct(names) && n > 0
    requires forall k :: if k in parts then PartFor(files, k) == Some(parts[k]) else PartFor(files, k) == None
    ensures RowsSoFar(rows, names, files, n, n)
    ensures problems == [] <==> AllWhole(names, files, n, n)
  {
    var merging := new Merging();
    for m := 0 to n
      invariant fresh(merging)
      invariant RowsSoFar(merging.rows, names, files, n, m)
      invariant merging.problems == [] <==> AllWhole(names, files, n, m)
    {
      JoinShard(merging, sort, names, files, if m + 1 in parts then Some(parts[m + 1]) else None, n, m);
    }
    return merging.rows, merging.problems;
  }

  lemma {:induction false} IncreasingDistinct(sort: Sorter, names: seq<Name>)
    requires Sorts(sort) && Increasing(sort.less, names)
    ensures Distinct(names)
  {}

  lemma {:induction false} RowsAreNames(sort: Sorter, rows: map<Name, Cell>, names: seq<Name>, files: seq<Report>,
                                        n: nat)
    requires Sorts(sort) && Increasing(sort.less, names) && n > 0 && RowsSoFar(rows, names, files, n, n)
    ensures sort.sorted(rows.Keys) == names
    ensures forall i :: 0 <= i < |names| ==> names[i] in rows && rows[names[i]] == RowOf(names, files, n, i).1
  {
    var keys := sort.sorted(rows.Keys);
    assert forall x :: x in keys <==> x in rows.Keys;
    assert forall i :: 0 <= i < |names| ==> i % n < n;
    IncreasingUnique(sort, keys, names);
  }

  /** merge_reports. It stops on a file that is no part, on two parts of one shard and on parts that name
      different counts. Otherwise the table has one row for each harness, in name order, from its own
      shard; and the code is 0 exactly when every shard reported exactly its own harnesses. */
  method MergeReports(sort: Sorter, names: seq<Name>, files: seq<Report>) returns (outcome: Outcome)
    requires Sorts(sort) && Increasing(sort.less, names)
    ensures outcome.Stopped? <==> !(Readable(files) && SameCount(files))
    ensures outcome.Ended? && files == [] ==> outcome == Ended(1, [])
    ensures outcome.Ended? && files != [] ==>
              && files[0].PartOf? && files[0].count > 0 && |outcome.table| == |names|
              && (forall i :: 0 <= i < |names| ==> outcome.table[i] == RowOf(names, files, files[0].count, i))
              && outcome.code == if AllWhole(names, files, files[0].count, files[0].count) then 0 else 1
  {
    var ok, parts, counts := ReadParts(files);
    if !ok {
      return Stopped;
    }
    if files == [] {
      return Ended(1, []);
    }
    assert Usable(files[0]);
    var n := files[0].count;
    assert n in counts;
    if counts != {n} {
      Disagree(files, counts, n);
      return Stopped;
    }
    Agree(files, counts, n);
    IncreasingDistinct(sort, names);
    var rows, problems := JoinShards(sort, names, files, parts, n);
    RowsAreNames(sort, rows, names, files, n);
    var table := [];
    var keys := sort.sorted(rows.Keys);
    for i := 0 to |keys|
      invariant |table| == i
      invariant forall j :: 0 <= j < i ==> table[j] == RowOf(names, files, n, j)
    {
      table := table + [(keys[i], rows[keys[i]])];
    }
    return Ended(if problems == [] then 0 else 1, table);
  }

  lemma {:induction false} Disagree(files: seq<Report>, counts: set<nat>, n: nat)
    requires Readable(files) && files != [] && Usable(files[0]) && files[0].count == n && counts != {n}
    requires forall c :: c in counts <==> exists i :: 0 <= i < |files| && Usable(files[i]) && files[i].count == c
    ensures !SameCount(files)
  {}

  lemma {:induction false} Agree(files: seq<Report>, counts: set<nat>, n: nat)
    requires Readable(files) && counts == {n}
    requires forall c :: c in counts <==> exists i :: 0 <= i < |files| && Usable(files[i]) && files[i].count == c
    ensures SameCount(files)
  {
    forall i | 0 <= i < |files|
      ensures files[i].PartOf? && files[i].count == n
    {
      assert Usable(files[i]);
      assert files[i].count in counts;
    }
  }

  ghost predicate Wrote(part: Option<Rows>, own: seq<Name>, figure: Name -> string) {
    Whole(part, own) && forall x :: x in part.value ==> part.value[x] == figure(x)
  }

  /** When every shard wrote its own harnesses' figures, the merged table is the unsharded run's. */
  lemma {:induction false} MergedIsUnsharded(names: seq<Name>, files: seq<Report>, n: nat, figure: Name -> string,
                                             i: nat)
    requires Distinct(names) && n > 0 && i < |names|
    requires forall k :: 1 <= k <= n ==> Wrote(PartFor(files, k), Part(names, k, n), figure)
    ensures RowOf(names, files, n, i) == (names[i], Written(figure(names[i])))
  {
    PartOfPlace(names, i, i % n + 1, n);
    assert Wrote(PartFor(files, i % n + 1), Part(names, i % n + 1, n), figure);
  }
}
