/**
 Access manifests: normalisation, the bytes a record carries them in, overlap of scopes and the
 coverage check made before a record receives its sequence.
 */
module Access {
  import opened Common
  import opened Bytes
  import opened KeyEncoding

  const MAX_SCOPES := 16_384

  datatype Scope = Table(table: nat) | Key(table: nat, key: ByteString)

  /** A set of access modes; the wire code is 1 for read plus 2 for write. */
  datatype Modes = Modes(read: bool, write: bool) {
    predicate Has(writing: bool) {
      if writing then write else read
    }

    predicate Empty() {
      !read && !write
    }

    function Union(other: Modes): Modes {
      Modes(read || other.read, write || other.write)
    }

    function Minus(other: Modes): Modes {
      Modes(read && !other.read, write && !other.write)
    }

    predicate Meets(other: Modes) {
      (read && other.read) || (write && other.write)
    }

    predicate Includes(other: Modes) {
      (other.read ==> read) && (other.write ==> write)
    }

    function Code(): Byte {
      (if read then 1 else 0) + (if write then 2 else 0)
    }
  }

  const NONE := Modes(false, false)

  type AccessMode = m: Modes | !m.Empty() witness Modes(true, false)

  datatype Entry = Entry(scope: Scope, mode: AccessMode)

  datatype AccessManifest = AccessManifest(entries: seq<Entry>)

  predicate ValidTable(table: nat) {
    0 < table < U64_MAX
  }

  predicate ValidScope(scope: Scope) {
    ValidTable(scope.table) && (scope.Key? ==> |scope.key| <= MAX_KEY_BYTES)
  }

  // ---------------------------------------------------------------- addresses

  /** A table scope holds every key of its table, a key scope exactly one. */
  predicate Covers(scope: Scope, table: nat, key: ByteString) {
    scope.table == table && (scope.Key? ==> scope.key == key)
  }

  ghost predicate Grants(entries: seq<Entry>, writing: bool, table: nat, key: ByteString) {
    exists i :: 0 <= i < |entries| && entries[i].mode.Has(writing) && Covers(entries[i].scope, table, key)
  }

  predicate Overlap(left: Scope, right: Scope) {
    left.table == right.table && (left.Key? && right.Key? ==> left.key == right.key)
  }

  /** `overlap` answers whether the two address sets meet. */
  lemma OverlapMeets(left: Scope, right: Scope)
    ensures Overlap(left, right) <==>
            exists table, key :: Covers(left, table, key) && Covers(right, table, key)
  {
    var key := if left.Key? then left.key else if right.Key? then right.key else [];
    if Overlap(left, right) {
      assert Covers(left, left.table, key) && Covers(right, left.table, key);
    }
  }

  /** The scopes of the entries holding one mode, in order. */
  function Scopes(entries: seq<Entry>, writing: bool): seq<Scope> {
    if entries == [] then []
    else if entries[0].mode.Has(writing) then [entries[0].scope] + Scopes(entries[1..], writing)
    else Scopes(entries[1..], writing)
  }

  ghost predicate CoveredBy(scopes: seq<Scope>, table: nat, key: ByteString) {
    exists i :: 0 <= i < |scopes| && Covers(scopes[i], table, key)
  }

  lemma {:induction false} ScopesGrant(entries: seq<Entry>, writing: bool, table: nat, key: ByteString)
    ensures CoveredBy(Scopes(entries, writing), table, key) <==> Grants(entries, writing, table, key)
  {
    if entries != [] {
      ScopesGrant(entries[1..], writing, table, key);
      var rest := Scopes(entries[1..], writing);
      var scopes := Scopes(entries, writing);
      if Grants(entries, writing, table, key) {
        var i :| 0 <= i < |entries| && entries[i].mode.Has(writing) && Covers(entries[i].scope, table, key);
        if i == 0 {
          assert Covers(scopes[0], table, key);
        } else {
          assert entries[1..][i - 1] == entries[i];
          var j :| 0 <= j < |rest| && Covers(rest[j], table, key);
          assert scopes[|scopes| - |rest| + j] == rest[j];
        }
      }
      if CoveredBy(scopes, table, key) {
        var j :| 0 <= j < |scopes| && Covers(scopes[j], table, key);
        if entries[0].mode.Has(writing) {
          if j == 0 {
            assert Covers(entries[0].scope, table, key);
          } else {
            assert scopes[j] == rest[j - 1];
          }
        }
        if Grants(entries[1..], writing, table, key) {
          var i :| 0 <= i < |entries[1..]| && entries[1..][i].mode.Has(writing)
            && Covers(entries[1..][i].scope, table, key);
          assert entries[i + 1] == entries[1..][i];
        }
      }
    }
  }

  // ---------------------------------------------------------------- order of scopes

  predicate ScopeLess(a: Scope, b: Scope) {
    || a.table < b.table
    || (a.table == b.table && b.Key? && (a.Table? || Less(a.key, b.key)))
  }

  lemma ScopeLessTransitive(a: Scope, b: Scope, c: Scope)
    requires ScopeLess(a, b) && ScopeLess(b, c)
    ensures ScopeLess(a, c) && a != c
  {
    if a.table == b.table == c.table && a.Key? {
      LessTransitive(a.key, b.key, c.key);
      LessIrreflexive(a.key);
    }
  }

  lemma ScopeLessTotal(a: Scope, b: Scope)
    ensures ScopeLess(a, b) || a == b || ScopeLess(b, a)
    ensures !ScopeLess(a, a)
  {
    if a.Key? {
      LessIrreflexive(a.key);
      if b.Key? {
        LessTotal(a.key, b.key);
      }
    }
  }

  ghost predicate Sorted(entries: seq<Entry>) {
    forall i, j :: 0 <= i < j < |entries| ==> ScopeLess(entries[i].scope, entries[j].scope)
  }

  predicate PointOfTable(point: Scope, whole: Scope) {
    whole.Table? && point.Key? && whole.table == point.table
  }

  /** Sorted, valid, and no point entry repeats a mode its table entry has. */
  ghost predicate NormalForm(entries: seq<Entry>) {
    && Sorted(entries)
    && (forall i :: 0 <= i < |entries| ==> ValidScope(entries[i].scope))
    && (forall i, j :: 0 <= i < |entries| && 0 <= j < |entries| && PointOfTable(entries[j].scope, entries[i].scope) ==>
          !entries[i].mode.Meets(entries[j].mode))
  }

  // ---------------------------------------------------------------- normalisation

  /** Insert into a sorted map, joining the modes of an existing scope. */
  function Merge(entries: seq<Entry>, e: Entry): seq<Entry> {
    if entries == [] then [e]
    else if entries[0].scope == e.scope then [Entry(e.scope, entries[0].mode.Union(e.mode))] + entries[1..]
    else if ScopeLess(e.scope, entries[0].scope) then [e] + entries
    else [entries[0]] + Merge(entries[1..], e)
  }

  function MergeAll(declarations: seq<Entry>): seq<Entry> {
    if declarations == [] then []
    else Merge(MergeAll(declarations[..|declarations| - 1]), declarations[|declarations| - 1])
  }

  /** Drop from each point the modes of its own table's entry; `modes` belongs to `table`. */
  function Suppress(entries: seq<Entry>, table: nat, modes: Modes): seq<Entry> {
    if entries == [] then []
    else
      var e := entries[0];
      var held := if e.scope.table == table then modes else NONE;
      if e.scope.Table? then [e] + Suppress(entries[1..], e.scope.table, e.mode)
      else
        var bits := e.mode.Minus(held);
        var rest := Suppress(entries[1..], e.scope.table, held);
        if bits.Empty() then rest else [Entry(e.scope, bits)] + rest
  }

  function Normalize(declarations: seq<Entry>): Result<AccessManifest> {
    if exists i :: 0 <= i < |declarations| && !ValidScope(declarations[i].scope) then Err(InvalidInput)
    else Ok(AccessManifest(Suppress(MergeAll(declarations), 0, NONE)))
  }

  ghost predicate Bounded(scope: Scope, entries: seq<Entry>) {
    forall i :: 0 <= i < |entries| ==> ScopeLess(scope, entries[i].scope)
  }

  lemma {:induction false} SortedTail(entries: seq<Entry>)
    requires entries != [] && Sorted(entries)
    ensures Sorted(entries[1..]) && Bounded(entries[0].scope, entries[1..])
  {
    forall i | 0 <= i < |entries[1..]|
      ensures ScopeLess(entries[0].scope, entries[1..][i].scope)
    {
      assert entries[1..][i] == entries[i + 1];
    }
  }

  lemma {:induction false} SortedCons(e: Entry, entries: seq<Entry>)
    requires Sorted(entries) && Bounded(e.scope, entries)
    ensures Sorted([e] + entries)
  {
    var all := [e] + entries;
    forall i, j | 0 <= i < j < |all|
      ensures ScopeLess(all[i].scope, all[j].scope)
    {
      assert all[j] == entries[j - 1];
      if i > 0 {
        assert all[i] == entries[i - 1];
      }
    }
  }

  lemma GrantsCons(e: Entry, entries: seq<Entry>, writing: bool, table: nat, key: ByteString)
    ensures Grants([e] + entries, writing, table, key) <==>
            (e.mode.Has(writing) && Covers(e.scope, table, key)) || Grants(entries, writing, table, key)
  {
    var all := [e] + entries;
    if Grants(all, writing, table, key) {
      var i :| 0 <= i < |all| && all[i].mode.Has(writing) && Covers(all[i].scope, table, key);
      if i > 0 {
        assert all[i] == entries[i - 1];
      }
    }
    if e.mode.Has(writing) && Covers(e.scope, table, key) {
      assert all[0] == e;
    }
    if Grants(entries, writing, table, key) {
      var i :| 0 <= i < |entries| && entries[i].mode.Has(writing) && Covers(entries[i].scope, table, key);
      assert all[i + 1] == entries[i];
    }
  }

  lemma {:induction false} MergeProperties(entries: seq<Entry>, e: Entry)
    requires Sorted(entries)
    ensures Sorted(Merge(entries, e))
    ensures forall scope :: Bounded(scope, entries) && ScopeLess(scope, e.scope) ==> Bounded(scope, Merge(entries, e))
    ensures (forall i :: 0 <= i < |entries| ==> ValidScope(entries[i].scope)) && ValidScope(e.scope) ==>
              forall i :: 0 <= i < |Merge(entries, e)| ==> ValidScope(Merge(entries, e)[i].scope)
  {
    if entries != [] {
      var head, tail := entries[0], entries[1..];
      SortedTail(entries);
      assert entries == [head] + tail;
      if head.scope == e.scope {
        SortedCons(Entry(e.scope, head.mode.Union(e.mode)), tail);
      } else if ScopeLess(e.scope, head.scope) {
        forall i | 0 <= i < |entries|
          ensures ScopeLess(e.scope, entries[i].scope)
        {
          if i > 0 {
            ScopeLessTransitive(e.scope, head.scope, entries[i].scope);
          }
        }
        SortedCons(e, entries);
      } else {
        ScopeLessTotal(head.scope, e.scope);
        MergeProperties(tail, e);
        SortedCons(head, Merge(tail, e));
      }
    }
  }

  lemma {:induction false} MergeGrants(entries: seq<Entry>, e: Entry, writing: bool, table: nat, key: ByteString)
    ensures Grants(Merge(entries, e), writing, table, key) <==>
            Grants(entries, writing, table, key) || (e.mode.Has(writing) && Covers(e.scope, table, key))
  {
    if entries == [] {
      GrantsCons(e, [], writing, table, key);
      assert [e] + [] == [e];
    } else {
      var head, tail := entries[0], entries[1..];
      assert entries == [head] + tail;
      GrantsCons(head, tail, writing, table, key);
      if head.scope == e.scope {
        GrantsCons(Entry(e.scope, head.mode.Union(e.mode)), tail, writing, table, key);
      } else if ScopeLess(e.scope, head.scope) {
        GrantsCons(e, entries, writing, table, key);
      } else {
        MergeGrants(tail, e, writing, table, key);
        GrantsCons(head, Merge(tail, e), writing, table, key);
      }
    }
  }

  lemma {:induction false} MergeAllProperties(declarations: seq<Entry>)
    requires forall i :: 0 <= i < |declarations| ==> ValidScope(declarations[i].scope)
    ensures Sorted(MergeAll(declarations))
    ensures forall i :: 0 <= i < |MergeAll(declarations)| ==> ValidScope(MergeAll(declarations)[i].scope)
    ensures forall writing, table, key ::
              Grants(MergeAll(declarations), writing, table, key) <==> Grants(declarations, writing, table, key)
  {
    if declarations != [] {
      var front, last := declarations[..|declarations| - 1], declarations[|declarations| - 1];
      MergeAllProperties(front);
      MergeProperties(MergeAll(front), last);
      forall writing, table, key
        ensures Grants(MergeAll(declarations), writing, table, key) <==> Grants(declarations, writing, table, key)
      {
        MergeGrants(MergeAll(front), last, writing, table, key);
        if Grants(front, writing, table, key) {
          var i :| 0 <= i < |front| && front[i].mode.Has(writing) && Covers(front[i].scope, table, key);
          assert declarations[i] == front[i];
        }
        if Grants(declarations, writing, table, key) {
          var i :| 0 <= i < |declarations| && declarations[i].mode.Has(writing)
            && Covers(declarations[i].scope, table, key);
          if i < |front| {
            assert front[i] == declarations[i];
          }
        }
      }
    }
  }

  lemma {:induction false} SuppressGrants(entries: seq<Entry>, table: nat, modes: Modes, writing: bool, t: nat,
      key: ByteString)
    ensures Grants(Suppress(entries, table, modes), writing, t, key) || (modes.Has(writing) && t == table) <==>
            Grants(entries, writing, t, key) || (modes.Has(writing) && t == table)
  {
    if entries != [] {
      var e, rest := entries[0], entries[1..];
      assert entries == [e] + rest;
      var held := if e.scope.table == table then modes else NONE;
      GrantsCons(e, rest, writing, t, key);
      if e.scope.Table? {
        SuppressGrants(rest, e.scope.table, e.mode, writing, t, key);
        GrantsCons(e, Suppress(rest, e.scope.table, e.mode), writing, t, key);
      } else {
        var bits := e.mode.Minus(held);
        SuppressGrants(rest, e.scope.table, held, writing, t, key);
        if !bits.Empty() {
          GrantsCons(Entry(e.scope, bits), Suppress(rest, e.scope.table, held), writing, t, key);
        }
      }
    }
  }

  /** What `Suppress` keeps: order, scopes, and disjointness from the held table modes. */
  ghost predicate Disjoint(entries: seq<Entry>, table: nat, modes: Modes) {
    forall i :: 0 <= i < |entries| && entries[i].scope.Key? && entries[i].scope.table == table ==>
      !modes.Meets(entries[i].mode)
  }

  /** Every entry of `after` narrows one of `before`. */
  ghost predicate Narrows(after: seq<Entry>, before: seq<Entry>) {
    forall i :: 0 <= i < |after| ==> exists j :: 0 <= j < |before| && before[j].scope == after[i].scope
  }

  lemma NarrowsCons(e: Entry, f: Entry, after: seq<Entry>, before: seq<Entry>)
    requires Narrows(after, before) && e.scope == f.scope
    ensures Narrows([e] + after, [f] + before) && Narrows(after, [f] + before)
  {
    var all, old_ := [e] + after, [f] + before;
    assert old_[0].scope == all[0].scope;
    forall i | 0 <= i < |after|
      ensures exists j :: 0 <= j < |old_| && old_[j].scope == after[i].scope
    {
      var j :| 0 <= j < |before| && before[j].scope == after[i].scope;
      assert old_[j + 1] == before[j];
    }
    forall i | 0 <= i < |all|
      ensures exists j :: 0 <= j < |old_| && old_[j].scope == all[i].scope
    {
      if i > 0 {
        assert all[i] == after[i - 1];
      }
    }
  }

  lemma {:induction false} SuppressNarrows(entries: seq<Entry>, table: nat, modes: Modes)
    ensures Narrows(Suppress(entries, table, modes), entries)
  {
    if entries != [] {
      var e, rest := entries[0], entries[1..];
      assert entries == [e] + rest;
      var held := if e.scope.table == table then modes else NONE;
      if e.scope.Table? {
        SuppressNarrows(rest, e.scope.table, e.mode);
        NarrowsCons(e, e, Suppress(rest, e.scope.table, e.mode), rest);
      } else {
        var bits := e.mode.Minus(held);
        SuppressNarrows(rest, e.scope.table, held);
        NarrowsCons(if bits.Empty() then e else Entry(e.scope, bits), e, Suppress(rest, e.scope.table, held), rest);
      }
    }
  }

  /** The table-entry context of `Suppress` is consistent with sorted remaining entries. */
  ghost predicate ContextFits(entries: seq<Entry>, table: nat, modes: Modes) {
    && (forall i :: 0 <= i < |entries| ==> table <= entries[i].scope.table)
    && (!modes.Empty() ==> forall i :: 0 <= i < |entries| && entries[i].scope.table == table ==> entries[i].scope.Key?)
  }

  lemma {:induction false} SuppressNormal(entries: seq<Entry>, table: nat, modes: Modes)
    requires Sorted(entries) && ContextFits(entries, table, modes)
    requires forall i :: 0 <= i < |entries| ==> ValidScope(entries[i].scope)
    ensures NormalForm(Suppress(entries, table, modes))
    ensures Disjoint(Suppress(entries, table, modes), table, modes)
  {
    if entries != [] {
      var e, rest := entries[0], entries[1..];
      assert entries == [e] + rest;
      SortedTail(entries);
      var held := if e.scope.table == table then modes else NONE;
      var next := if e.scope.Table? then e.mode else held;
      assert ContextFits(rest, e.scope.table, next) by {
        forall i | 0 <= i < |rest|
          ensures e.scope.table <= rest[i].scope.table
          ensures !next.Empty() && rest[i].scope.table == e.scope.table ==> rest[i].scope.Key?
        {
          assert rest[i] == entries[i + 1];
          assert ScopeLess(e.scope, rest[i].scope);
        }
      }
      var tail := Suppress(rest, e.scope.table, next);
      SuppressNormal(rest, e.scope.table, next);
      SuppressNarrows(rest, e.scope.table, next);
      assert Bounded(e.scope, tail);
      var bits := if e.scope.Table? then e.mode else e.mode.Minus(held);
      if !bits.Empty() {
        SortedCons(Entry(e.scope, bits), tail);
        NormalCons(Entry(e.scope, bits), tail);
      }
      DisjointTail(e, tail, table, modes, held);
    }
  }

  lemma NormalCons(e: Entry, tail: seq<Entry>)
    requires NormalForm(tail) && Sorted([e] + tail) && ValidScope(e.scope)
    requires e.scope.Table? ==> Disjoint(tail, e.scope.table, e.mode)
    requires Bounded(e.scope, tail)
    ensures NormalForm([e] + tail)
  {
    var all := [e] + tail;
    forall i, j | 0 <= i < |all| && 0 <= j < |all| && PointOfTable(all[j].scope, all[i].scope)
      ensures !all[i].mode.Meets(all[j].mode)
    {
      if i > 0 {
        assert all[i] == tail[i - 1] && ScopeLess(e.scope, tail[i - 1].scope);
      }
      if j > 0 {
        assert all[j] == tail[j - 1];
      }
    }
  }

  lemma DisjointTail(e: Entry, tail: seq<Entry>, table: nat, modes: Modes, held: Modes)
    requires table <= e.scope.table && Bounded(e.scope, tail)
    requires held == if e.scope.table == table then modes else NONE
    requires e.scope.Table? ==> (e.scope.table == table ==> modes.Empty())
    requires e.scope.Key? ==> Disjoint(tail, e.scope.table, held)
    ensures Disjoint(tail, table, modes)
    ensures e.scope.Key? && !e.mode.Minus(held).Empty() ==>
              Disjoint([Entry(e.scope, e.mode.Minus(held))] + tail, table, modes)
    ensures e.scope.Table? ==> Disjoint([e] + tail, table, modes)
  {
    forall i | 0 <= i < |tail| && tail[i].scope.Key? && tail[i].scope.table == table
      ensures !modes.Meets(tail[i].mode)
    {
      assert ScopeLess(e.scope, tail[i].scope);
    }
  }

  /** Normalising keeps each mode's address set and yields a normal form. */
  lemma NormalizePreserves(declarations: seq<Entry>)
    requires Normalize(declarations).Ok?
    ensures NormalForm(Normalize(declarations).value.entries)
    ensures forall writing, table, key ::
              Grants(Normalize(declarations).value.entries, writing, table, key) <==>
              Grants(declarations, writing, table, key)
  {
    MergeAllProperties(declarations);
    var merged := MergeAll(declarations);
    SuppressNormal(merged, 0, NONE);
    forall writing, table, key
      ensures Grants(Suppress(merged, 0, NONE), writing, table, key) <==> Grants(declarations, writing, table, key)
    {
      SuppressGrants(merged, 0, NONE, writing, table, key);
    }
  }

  // ---------------------------------------------------------------- uniqueness

  function ModesAt(entries: seq<Entry>, scope: Scope): Modes {
    if entries == [] then NONE
    else if entries[0].scope == scope then entries[0].mode
    else ModesAt(entries[1..], scope)
  }

  lemma {:induction false} ModesAtEntry(entries: seq<Entry>, i: nat)
    requires Sorted(entries) && i < |entries|
    ensures ModesAt(entries, entries[i].scope) == entries[i].mode
  {
    SortedTail(entries);
    if i > 0 {
      assert entries[1..][i - 1] == entries[i];
      ScopeLessTotal(entries[0].scope, entries[i].scope);
      ModesAtEntry(entries[1..], i - 1);
    }
  }

  lemma {:induction false} ModesAtAbsent(entries: seq<Entry>, scope: Scope) returns (i: nat)
    requires !ModesAt(entries, scope).Empty()
    ensures i < |entries| && entries[i].scope == scope
  {
    if entries[0].scope == scope {
      i := 0;
    } else {
      var j := ModesAtAbsent(entries[1..], scope);
      i := j + 1;
    }
  }

  /** A key no point scope can name: it is one byte too long. */
  const LONG_KEY: ByteString := seq(MAX_KEY_BYTES + 1, i => 0)

  lemma TableModes(entries: seq<Entry>, table: nat, writing: bool)
    requires NormalForm(entries)
    ensures ModesAt(entries, Table(table)).Has(writing) <==> Grants(entries, writing, table, LONG_KEY)
  {
    if ModesAt(entries, Table(table)).Has(writing) {
      var i := ModesAtAbsent(entries, Table(table));
      ModesAtEntry(entries, i);
      assert Covers(entries[i].scope, table, LONG_KEY);
    }
    if Grants(entries, writing, table, LONG_KEY) {
      var i :| 0 <= i < |entries| && entries[i].mode.Has(writing) && Covers(entries[i].scope, table, LONG_KEY);
      assert ValidScope(entries[i].scope);
      ModesAtEntry(entries, i);
    }
  }

  lemma PointModes(entries: seq<Entry>, table: nat, key: ByteString, writing: bool)
    requires NormalForm(entries)
    ensures ModesAt(entries, Key(table, key)).Has(writing) <==>
            Grants(entries, writing, table, key) && !Grants(entries, writing, table, LONG_KEY)
    ensures Grants(entries, writing, table, key) <==>
            ModesAt(entries, Key(table, key)).Has(writing) || ModesAt(entries, Table(table)).Has(writing)
  {
    TableModes(entries, table, writing);
    if ModesAt(entries, Key(table, key)).Has(writing) {
      var i := ModesAtAbsent(entries, Key(table, key));
      ModesAtEntry(entries, i);
      assert Covers(entries[i].scope, table, key);
      if ModesAt(entries, Table(table)).Has(writing) {
        var j := ModesAtAbsent(entries, Table(table));
        ModesAtEntry(entries, j);
        assert entries[j].mode.Meets(entries[i].mode);
      }
    }
    if ModesAt(entries, Table(table)).Has(writing) {
      var j := ModesAtAbsent(entries, Table(table));
      ModesAtEntry(entries, j);
      assert Covers(entries[j].scope, table, key);
    }
    if Grants(entries, writing, table, key) {
      var i :| 0 <= i < |entries| && entries[i].mode.Has(writing) && Covers(entries[i].scope, table, key);
      ModesAtEntry(entries, i);
    }
  }

  lemma {:induction false} SortedLookupUnique(xs: seq<Entry>, ys: seq<Entry>)
    requires Sorted(xs) && Sorted(ys)
    requires forall scope :: ModesAt(xs, scope) == ModesAt(ys, scope)
    ensures xs == ys
  {
    var scope := if xs != [] then xs[0].scope else if ys != [] then ys[0].scope else Table(0);
    assert ModesAt(xs, scope) == ModesAt(ys, scope);
    if xs != [] && ys != [] {
      SortedTail(xs);
      SortedTail(ys);
      HeadsAgree(xs, ys);
      forall scope
        ensures ModesAt(xs[1..], scope) == ModesAt(ys[1..], scope)
      {
        assert ModesAt(xs, scope) == ModesAt(ys, scope);
        if scope == xs[0].scope {
          BoundedAbsent(xs[0].scope, xs[1..]);
          BoundedAbsent(xs[0].scope, ys[1..]);
        }
      }
      SortedLookupUnique(xs[1..], ys[1..]);
      assert xs == [xs[0]] + xs[1..] && ys == [ys[0]] + ys[1..];
    }
  }

  lemma BoundedAbsent(scope: Scope, entries: seq<Entry>)
    requires Bounded(scope, entries)
    ensures ModesAt(entries, scope) == NONE
  {
    if !ModesAt(entries, scope).Empty() {
      var i := ModesAtAbsent(entries, scope);
      ScopeLessTotal(scope, scope);
    }
  }

  lemma HeadsAgree(xs: seq<Entry>, ys: seq<Entry>)
    requires xs != [] && ys != [] && Sorted(xs) && Sorted(ys)
    requires forall scope :: ModesAt(xs, scope) == ModesAt(ys, scope)
    ensures xs[0] == ys[0]
  {
    assert ModesAt(xs, xs[0].scope) == ModesAt(ys, xs[0].scope);
    assert ModesAt(xs, ys[0].scope) == ModesAt(ys, ys[0].scope);
    var i := ModesAtAbsent(ys, xs[0].scope);
    var j := ModesAtAbsent(xs, ys[0].scope);
    if i > 0 && j > 0 {
      ScopeLessTransitive(ys[0].scope, ys[i].scope, xs[j].scope);
    }
  }

  /** Two normal forms that grant the same addresses are the same manifest. */
  lemma NormalFormUnique(xs: seq<Entry>, ys: seq<Entry>)
    requires NormalForm(xs) && NormalForm(ys)
    requires forall writing, table, key :: Grants(xs, writing, table, key) <==> Grants(ys, writing, table, key)
    ensures xs == ys
  {
    forall scope
      ensures ModesAt(xs, scope) == ModesAt(ys, scope)
    {
      forall writing: bool
        ensures ModesAt(xs, scope).Has(writing) == ModesAt(ys, scope).Has(writing)
      {
        TableModes(xs, scope.table, writing);
        TableModes(ys, scope.table, writing);
        if scope.Key? {
          PointModes(xs, scope.table, scope.key, writing);
          PointModes(ys, scope.table, scope.key, writing);
        }
      }
      assert ModesAt(xs, scope).Has(false) == ModesAt(ys, scope).Has(false);
      assert ModesAt(xs, scope).Has(true) == ModesAt(ys, scope).Has(true);
    }
    SortedLookupUnique(xs, ys);
  }

  /** Order, duplicates and redundant points of the input do not matter. */
  lemma NormalizeByMeaning(a: seq<Entry>, b: seq<Entry>)
    requires Normalize(a).Ok? && Normalize(b).Ok?
    ensures Normalize(a) == Normalize(b) <==>
            forall writing, table, key :: Grants(a, writing, table, key) <==> Grants(b, writing, table, key)
  {
    NormalizePreserves(a);
    NormalizePreserves(b);
    if forall writing, table, key :: Grants(a, writing, table, key) <==> Grants(b, writing, table, key) {
      NormalFormUnique(Normalize(a).value.entries, Normalize(b).value.entries);
    }
  }

  /** Normal forms are exactly the fixed points of normalisation. */
  lemma NormalizeFixedPoint(entries: seq<Entry>)
    ensures NormalForm(entries) <==> Normalize(entries) == Ok(AccessManifest(entries))
  {
    if Normalize(entries).Ok? {
      NormalizePreserves(entries);
      if NormalForm(entries) {
        NormalFormUnique(Normalize(entries).value.entries, entries);
      }
    }
  }

  method Combine(declarations: seq<Entry>) returns (r: Result<seq<Entry>>)
    ensures r == if exists i :: 0 <= i < |declarations| && !ValidScope(declarations[i].scope) then Err(InvalidInput)
                 else Ok(MergeAll(declarations))
  {
    var combined: seq<Entry> := [];
    for i := 0 to |declarations|
      invariant combined == MergeAll(declarations[..i])
      invariant forall j :: 0 <= j < i ==> ValidScope(declarations[j].scope)
    {
      if !ValidScope(declarations[i].scope) {
        return Err(InvalidInput);
      }
      assert declarations[..i + 1][..i] == declarations[..i];
      combined := Merge(combined, declarations[i]);
    }
    assert declarations[..|declarations|] == declarations;
    r := Ok(combined);
  }

  method SuppressPoints(combined: seq<Entry>) returns (entries: seq<Entry>)
    ensures entries == Suppress(combined, 0, NONE)
  {
    entries := [];
    var table, modes := 0, NONE;
    for i := 0 to |combined|
      invariant Suppress(combined, 0, NONE) == entries + Suppress(combined[i..], table, modes)
    {
      var e := combined[i];
      assert combined[i..][1..] == combined[i + 1..];
      if table != e.scope.table {
        table, modes := e.scope.table, NONE;
      }
      if e.scope.Table? {
        modes := e.mode;
        Reassociate(entries, [e], Suppress(combined[i + 1..], table, modes));
        entries := entries + [e];
      } else {
        var bits := e.mode.Minus(modes);
        if !bits.Empty() {
          Reassociate(entries, [Entry(e.scope, bits)], Suppress(combined[i + 1..], table, modes));
          entries := entries + [Entry(e.scope, bits)];
        }
      }
    }
    assert combined[|combined|..] == [];
    assert entries + [] == entries;
  }

  /** The two passes of `AccessManifest::new`. */
  method New(declarations: seq<Entry>) returns (r: Result<AccessManifest>)
    ensures r == Normalize(declarations)
  {
    var combined := Combine(declarations);
    if combined.Err? {
      return Err(combined.error);
    }
    var entries := SuppressPoints(combined.value);
    r := Ok(AccessManifest(entries));
  }

  // ---------------------------------------------------------------- bytes

  function EncodeEntry(e: Entry): ByteString
    requires ValidScope(e.scope)
  {
    var key := if e.scope.Key? then e.scope.key else [];
    LittleEndian(e.scope.table, 8)
        + ([if e.scope.Key? then 1 else 0, e.mode.Code(), 0, 0] + (LittleEndian(|key|, 4) + key))
  }

  ghost predicate AllValid(entries: seq<Entry>) {
    forall i :: 0 <= i < |entries| ==> ValidScope(entries[i].scope)
  }

  function EncodeEntries(entries: seq<Entry>): ByteString
    requires AllValid(entries)
  {
    if entries == [] then [] else EncodeEntry(entries[0]) + EncodeEntries(entries[1..])
  }

  /** `encode`: fails only on more than 16,384 entries. */
  function Encode(manifest: AccessManifest): Result<ByteString>
    requires AllValid(manifest.entries)
  {
    if |manifest.entries| > MAX_SCOPES then Err(InvalidInput)
    else Ok(LittleEndian(|manifest.entries|, 4) + EncodeEntries(manifest.entries))
  }

  function DecodeEntry(input: ByteString): Result<(Entry, ByteString)> {
    if |input| < 16 then Err(InvalidInput)
    else
      var table := FromLittleEndian(input[..8]);
      var (kind, code) := (input[8], input[9]);
      var length := FromLittleEndian(input[12..16]);
      var rest := input[16..];
      if !(1 <= code <= 3) then Err(InvalidInput)
      else if !ValidTable(table) || input[10] != 0 || input[11] != 0 then Err(InvalidInput)
      else if length > MAX_KEY_BYTES || length > |rest| then Err(InvalidInput)
      else if kind > 1 || (kind == 0 && length != 0) then Err(InvalidInput)
      else
        var scope := if kind == 0 then Table(table) else Key(table, rest[..length]);
        Ok((Entry(scope, Modes(code % 2 == 1, code >= 2)), rest[length..]))
  }

  /** Read `count` entries after `previous`, whose table's own entry holds `modes`. */
  function DecodeEntries(input: ByteString, count: nat, previous: Option<Scope>, table: nat,
      modes: Modes): Result<(seq<Entry>, ByteString)>
  {
    if count == 0 then Ok(([], input))
    else
      var (e, rest) :- DecodeEntry(input);
      var held := if e.scope.table == table then modes else NONE;
      if !Follows(previous, e.scope) || (e.scope.Key? && held.Meets(e.mode)) then Err(InvalidInput)
      else
        var next := if e.scope.Table? then e.mode else held;
        var (more, last) :- DecodeEntries(rest, count - 1, Some(e.scope), e.scope.table, next);
        Ok(([e] + more, last))
  }

  predicate Follows(previous: Option<Scope>, scope: Scope) {
    previous.Some? ==> ScopeLess(previous.value, scope)
  }

  function Decode(bytes: ByteString): Result<AccessManifest> {
    if |bytes| < 4 then Err(InvalidInput)
    else
      var count := FromLittleEndian(bytes[..4]);
      if count > MAX_SCOPES || count > |bytes[4..]| / 16 then Err(InvalidInput)
      else
        var (entries, rest) :- DecodeEntries(bytes[4..], count, None, 0, NONE);
        if rest != [] then Err(InvalidInput) else Ok(AccessManifest(entries))
  }

  lemma EntryParts(table: ByteString, fields: ByteString, length: ByteString, key: ByteString, suffix: ByteString,
      input: ByteString)
    requires |table| == 8 && |fields| == 4 && |length| == 4
    requires input == table + (fields + (length + key)) + suffix
    ensures |input| == 16 + |key| + |suffix|
    ensures input[..8] == table && input[8..12] == fields && input[12..16] == length
    ensures input[16..][..|key|] == key && input[16..][|key|..] == suffix
  {
  }

  lemma DecodeOfEncodeEntry(e: Entry, suffix: ByteString)
    requires ValidScope(e.scope)
    ensures DecodeEntry(EncodeEntry(e) + suffix) == Ok((e, suffix))
  {
    var key := if e.scope.Key? then e.scope.key else [];
    var fields := [if e.scope.Key? then 1 else 0, e.mode.Code(), 0, 0];
    var input := EncodeEntry(e) + suffix;
    Base8();
    LittleEndianRoundTrip(e.scope.table, 8);
    LittleEndianRoundTrip(|key|, 4);
    EntryParts(LittleEndian(e.scope.table, 8), fields, LittleEndian(|key|, 4), key, suffix, input);
    assert input[8] == input[8..12][0] && input[9] == input[8..12][1];
    assert input[10] == input[8..12][2] && input[11] == input[8..12][3];
  }

  lemma AcceptedEntry(input: ByteString)
    requires DecodeEntry(input).Ok?
    ensures ValidScope(DecodeEntry(input).value.0.scope)
    ensures input == EncodeEntry(DecodeEntry(input).value.0) + DecodeEntry(input).value.1
  {
    Base8();
    FromLittleEndianRoundTrip(input[..8]);
    FromLittleEndianRoundTrip(input[12..16]);
    var (e, rest) := DecodeEntry(input).value;
    var length := FromLittleEndian(input[12..16]);
    var key := input[16..][..length];
    assert key == if e.scope.Key? then e.scope.key else [];
    assert input[8..12] == [input[8], e.mode.Code(), 0, 0];
    assert input == input[..8] + (input[8..12] + (input[12..16] + key)) + rest;
  }

  /** The recursive form of `NormalForm` that the decoder checks entry by entry. */
  ghost predicate NormalFrom(entries: seq<Entry>, previous: Option<Scope>, table: nat, modes: Modes) {
    entries != [] ==>
      var e := entries[0];
      var held := if e.scope.table == table then modes else NONE;
      && ValidScope(e.scope)
      && Follows(previous, e.scope)
      && !(e.scope.Key? && held.Meets(e.mode))
      && NormalFrom(entries[1..], Some(e.scope), e.scope.table, if e.scope.Table? then e.mode else held)
  }

  lemma {:induction false} NormalFromValid(entries: seq<Entry>, previous: Option<Scope>, table: nat, modes: Modes)
    requires NormalFrom(entries, previous, table, modes)
    ensures AllValid(entries) && Sorted(entries)
    ensures previous.Some? ==> Bounded(previous.value, entries)
  {
    if entries != [] {
      var e, rest := entries[0], entries[1..];
      var held := if e.scope.table == table then modes else NONE;
      assert entries == [e] + rest;
      NormalFromValid(rest, Some(e.scope), e.scope.table, if e.scope.Table? then e.mode else held);
      SortedCons(e, rest);
      if previous.Some? {
        forall i | 0 <= i < |entries|
          ensures ScopeLess(previous.value, entries[i].scope)
        {
          if i > 0 {
            assert entries[i] == rest[i - 1];
            ScopeLessTransitive(previous.value, e.scope, entries[i].scope);
          }
        }
      }
    }
  }

  lemma {:induction false} NormalFromForm(entries: seq<Entry>, previous: Option<Scope>, table: nat, modes: Modes)
    requires NormalFrom(entries, previous, table, modes)
    requires previous.Some? ==> previous.value.table == table
    requires previous.None? ==> modes.Empty()
    ensures NormalForm(entries) && Disjoint(entries, table, modes)
  {
    NormalFromValid(entries, previous, table, modes);
    if entries != [] {
      var e, rest := entries[0], entries[1..];
      var held := if e.scope.table == table then modes else NONE;
      var next := if e.scope.Table? then e.mode else held;
      assert entries == [e] + rest;
      NormalFromValid(rest, Some(e.scope), e.scope.table, next);
      NormalFromForm(rest, Some(e.scope), e.scope.table, next);
      NormalCons(e, rest);
      forall i | 0 <= i < |entries| && entries[i].scope.Key? && entries[i].scope.table == table
        ensures !modes.Meets(entries[i].mode)
      {
        if i > 0 {
          assert entries[i] == rest[i - 1] && ScopeLess(e.scope, rest[i - 1].scope);
        }
      }
    }
  }

  lemma {:induction false} NormalFormFrom(entries: seq<Entry>, previous: Option<Scope>, table: nat, modes: Modes)
    requires NormalForm(entries) && Disjoint(entries, table, modes)
    requires previous.Some? ==> Bounded(previous.value, entries)
    ensures NormalFrom(entries, previous, table, modes)
  {
    if entries != [] {
      var e, rest := entries[0], entries[1..];
      var held := if e.scope.table == table then modes else NONE;
      var next := if e.scope.Table? then e.mode else held;
      assert entries == [e] + rest;
      SortedTail(entries);
      forall i | 0 <= i < |rest|
        ensures rest[i] == entries[i + 1] && ValidScope(rest[i].scope)
      {
      }
      forall i, j | 0 <= i < |rest| && 0 <= j < |rest| && PointOfTable(rest[j].scope, rest[i].scope)
        ensures !rest[i].mode.Meets(rest[j].mode)
      {
        assert rest[i] == entries[i + 1] && rest[j] == entries[j + 1];
      }
      forall i | 0 <= i < |rest| && rest[i].scope.Key? && rest[i].scope.table == e.scope.table
        ensures !next.Meets(rest[i].mode)
      {
        assert rest[i] == entries[i + 1];
        if e.scope.Table? {
          assert PointOfTable(entries[i + 1].scope, entries[0].scope);
        }
      }
      NormalFormFrom(rest, Some(e.scope), e.scope.table, next);
    }
  }

  lemma {:induction false} DecodeOfEncodeEntries(input: ByteString, entries: seq<Entry>, previous: Option<Scope>,
      table: nat, modes: Modes, suffix: ByteString)
    requires NormalFrom(entries, previous, table, modes) && AllValid(entries)
    requires input == EncodeEntries(entries) + suffix
    ensures DecodeEntries(input, |entries|, previous, table, modes) == Ok((entries, suffix))
  {
    if entries == [] {
      assert input == suffix;
    } else {
      var e, others := entries[0], entries[1..];
      var held := if e.scope.table == table then modes else NONE;
      var next := if e.scope.Table? then e.mode else held;
      var rest := EncodeEntries(others) + suffix;
      assert input == EncodeEntry(e) + rest by {
        Reassociate(EncodeEntry(e), EncodeEntries(others), suffix);
      }
      DecodeOfEncodeEntry(e, rest);
      DecodeOfEncodeEntries(rest, others, Some(e.scope), e.scope.table, next, suffix);
      assert entries == [e] + others;
    }
  }

  lemma {:induction false} AcceptedEntries(input: ByteString, count: nat, previous: Option<Scope>, table: nat,
      modes: Modes)
    requires DecodeEntries(input, count, previous, table, modes).Ok?
    ensures var (entries, rest) := DecodeEntries(input, count, previous, table, modes).value;
            && |entries| == count
            && NormalFrom(entries, previous, table, modes)
            && AllValid(entries)
            && input == EncodeEntries(entries) + rest
  {
    if count != 0 {
      AcceptedEntry(input);
      var (e, rest) := DecodeEntry(input).value;
      var held := if e.scope.table == table then modes else NONE;
      var next := if e.scope.Table? then e.mode else held;
      AcceptedEntries(rest, count - 1, Some(e.scope), e.scope.table, next);
      var (more, last) := DecodeEntries(rest, count - 1, Some(e.scope), e.scope.table, next).value;
      var all := [e] + more;
      assert all[1..] == more && all[0] == e;
      NormalFromValid(all, previous, table, modes);
      Reassociate(EncodeEntry(e), EncodeEntries(more), last);
    }
  }

  lemma {:induction false} EncodedLength(entries: seq<Entry>)
    requires AllValid(entries)
    ensures |EncodeEntries(entries)| >= 16 * |entries|
  {
    if entries != [] {
      EncodedLength(entries[1..]);
    }
  }

  /** Decoding accepts exactly the encodings of normal forms and undoes encoding. */
  lemma DecodeExactlyEncodings(bytes: ByteString, manifest: AccessManifest)
    ensures Decode(bytes) == Ok(manifest) <==>
            NormalForm(manifest.entries) && AllValid(manifest.entries) && Encode(manifest) == Ok(bytes)
  {
    Base8();
    var entries := manifest.entries;
    if Decode(bytes) == Ok(manifest) {
      var count := FromLittleEndian(bytes[..4]);
      FromLittleEndianRoundTrip(bytes[..4]);
      AcceptedEntries(bytes[4..], count, None, 0, NONE);
      NormalFromForm(entries, None, 0, NONE);
      assert EncodeEntries(entries) + [] == EncodeEntries(entries) == bytes[4..];
      assert bytes == bytes[..4] + bytes[4..];
    }
    if NormalForm(entries) && AllValid(entries) && Encode(manifest) == Ok(bytes) {
      LittleEndianRoundTrip(|entries|, 4);
      assert bytes[..4] == LittleEndian(|entries|, 4);
      assert bytes[4..] == EncodeEntries(entries);
      EncodedLength(entries);
      NormalFormFrom(entries, None, 0, NONE);
      assert EncodeEntries(entries) + [] == EncodeEntries(entries);
      DecodeOfEncodeEntries(bytes[4..], entries, None, 0, NONE, []);
    }
  }

  /** The decoding loop. */
  method DecodeManifest(bytes: ByteString) returns (r: Result<AccessManifest>)
    ensures r == Decode(bytes)
  {
    if |bytes| < 4 {
      return Err(InvalidInput);
    }
    var count := FromLittleEndian(bytes[..4]);
    if count > MAX_SCOPES || count > |bytes[4..]| / 16 {
      return Err(InvalidInput);
    }
    var input := bytes[4..];
    var entries: seq<Entry> := [];
    var previous: Option<Scope> := None;
    var table, modes := 0, NONE;
    ghost var whole := DecodeEntries(input, count, None, 0, NONE);
    assert whole.Ok? ==> [] + whole.value.0 == whole.value.0;
    for i := 0 to count
      invariant whole == Prepend(entries, DecodeEntries(input, count - i, previous, table, modes))
    {
      var step := DecodeEntry(input);
      if step.Err? {
        return Err(step.error);
      }
      var (e, rest) := step.value;
      if previous.Some? && !ScopeLess(previous.value, e.scope) {
        return Err(InvalidInput);
      }
      if table != e.scope.table {
        table, modes := e.scope.table, NONE;
      }
      if e.scope.Table? {
        modes := e.mode;
      } else if modes.Meets(e.mode) {
        return Err(InvalidInput);
      }
      ghost var more := DecodeEntries(rest, count - i - 1, Some(e.scope), table, modes);
      if more.Ok? {
        Reassociate(entries, [e], more.value.0);
      }
      entries, input, previous := entries + [e], rest, Some(e.scope);
    }
    assert entries + [] == entries;
    r := if input != [] then Err(InvalidInput) else Ok(AccessManifest(entries));
  }

  function Prepend(entries: seq<Entry>, r: Result<(seq<Entry>, ByteString)>): Result<(seq<Entry>, ByteString)> {
    match r
    case Ok((more, rest)) => Ok((entries + more, rest))
    case Err(e) => Err(e)
  }

  // ---------------------------------------------------------------- coverage

  /** The union of the table entry's and the scope's own modes. */
  function Declared(entries: seq<Entry>, scope: Scope): Modes {
    ModesAt(entries, Table(scope.table)).Union(ModesAt(entries, scope))
  }

  ghost predicate CoversRequired(entries: seq<Entry>, required: seq<Entry>) {
    forall i :: 0 <= i < |required| ==> Declared(entries, required[i].scope).Includes(required[i].mode)
  }

  /** The coverage test accepts exactly when every required access is declared, per mode. */
  lemma CoverageExact(entries: seq<Entry>, required: seq<Entry>)
    requires NormalForm(entries) && NormalForm(required)
    ensures CoversRequired(entries, required) <==>
            forall writing, table, key :: Grants(required, writing, table, key) ==> Grants(entries, writing, table, key)
  {
    if CoversRequired(entries, required) {
      forall writing, table, key | Grants(required, writing, table, key)
        ensures Grants(entries, writing, table, key)
      {
        var i :| 0 <= i < |required| && required[i].mode.Has(writing) && Covers(required[i].scope, table, key);
        assert Declared(entries, required[i].scope).Includes(required[i].mode);
        PointModes(entries, table, key, writing);
      }
    }
    if forall writing, table, key :: Grants(required, writing, table, key) ==> Grants(entries, writing, table, key) {
      forall i | 0 <= i < |required|
        ensures Declared(entries, required[i].scope).Includes(required[i].mode)
      {
        var scope := required[i].scope;
        var key := if scope.Key? then scope.key else LONG_KEY;
        forall writing: bool | required[i].mode.Has(writing)
          ensures Declared(entries, scope).Has(writing)
        {
          assert Covers(scope, scope.table, key);
          assert Grants(required, writing, scope.table, key);
          PointModes(entries, scope.table, key, writing);
          TableModes(entries, scope.table, writing);
        }
        assert required[i].mode.Has(false) ==> Declared(entries, scope).Has(false);
        assert required[i].mode.Has(true) ==> Declared(entries, scope).Has(true);
      }
    }
  }

  /** Every declared scope names a program table and, for a point, one of its canonical keys. */
  predicate KnownScope(scope: Scope, tables: map<nat, Schema>) {
    scope.table in tables && (scope.Key? ==> DecodeKeySpec(tables[scope.table], scope.key).Ok?)
  }

  method Validate(manifest: AccessManifest, required: AccessManifest, tables: map<nat, Schema>, claim: nat)
    returns (r: Result<()>)
    requires NormalForm(manifest.entries) && NormalForm(required.entries)
    ensures r.Ok? <==>
            && |manifest.entries| <= claim
            && |manifest.entries| <= MAX_SCOPES
            && (forall i :: 0 <= i < |manifest.entries| ==> KnownScope(manifest.entries[i].scope, tables))
            && (forall writing, table, key :: Grants(required.entries, writing, table, key) ==>
                  Grants(manifest.entries, writing, table, key))
  {
    CoverageExact(manifest.entries, required.entries);
    if |manifest.entries| > claim || |manifest.entries| > MAX_SCOPES {
      return Err(InvalidInput);
    }
    var declarations: map<Scope, AccessMode> := map[];
    for i := 0 to |manifest.entries|
      invariant forall j :: 0 <= j < i ==> KnownScope(manifest.entries[j].scope, tables)
      invariant forall j :: 0 <= j < i ==> manifest.entries[j].scope in declarations
      invariant forall scope :: scope in declarations ==>
                  exists j :: 0 <= j < i && manifest.entries[j] == Entry(scope, declarations[scope])
    {
      var e := manifest.entries[i];
      if e.scope.table !in tables {
        return Err(InvalidInput);
      }
      if e.scope.Key? {
        var value := DecodeKey(tables[e.scope.table], e.scope.key);
        if value.Err? {
          return Err(InvalidInput);
        }
      }
      declarations := declarations[e.scope := e.mode];
    }
    forall scope
      ensures ModesAt(manifest.entries, scope) == Lookup(declarations, scope)
    {
      if scope in declarations {
        var j :| 0 <= j < |manifest.entries| && manifest.entries[j] == Entry(scope, declarations[scope]);
        ModesAtEntry(manifest.entries, j);
      } else if !ModesAt(manifest.entries, scope).Empty() {
        var j := ModesAtAbsent(manifest.entries, scope);
      }
    }
    for i := 0 to |required.entries|
      invariant forall j :: 0 <= j < i ==>
                  Declared(manifest.entries, required.entries[j].scope).Includes(required.entries[j].mode)
    {
      var e := required.entries[i];
      var declared := Lookup(declarations, Table(e.scope.table)).Union(Lookup(declarations, e.scope));
      if !declared.Includes(e.mode) {
        assert !CoversRequired(manifest.entries, required.entries);
        return Err(InvalidInput);
      }
    }
    r := Ok(());
  }

  function Lookup(declarations: map<Scope, AccessMode>, scope: Scope): Modes {
    if scope in declarations then declarations[scope] else NONE
  }
}
