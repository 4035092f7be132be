/**
 Binding a compiled program to a database: the table array is filled in ascending order
 and every operand that named a declaration is rewritten to name its slot.
 */
module Bind {
  import opened Common
  import opened Bytes

  const MAX_TABLES := 65535
  const MAX_ARGUMENT_BYTES := 16 * 1024 * 1024

  datatype Patch = Patch(offset: nat, declaration: nat)

  /** A table ID with the declaration it came from. */
  datatype Bound = Bound(declaration: nat, id: nat)

  predicate ValidTableId(id: nat) {
    0 < id < U64_MAX
  }

  // ---------------------------------------------------------------- sorting

  ghost predicate Ascending(bounds: seq<Bound>) {
    forall i, j :: 0 <= i < j < |bounds| ==> bounds[i].id <= bounds[j].id
  }

  ghost predicate StrictlyAscending(bounds: seq<Bound>) {
    forall i, j :: 0 <= i < j < |bounds| ==> bounds[i].id < bounds[j].id
  }

  function Enumerated(ids: seq<nat>): (r: seq<Bound>)
    ensures |r| == |ids|
  {
    seq(|ids|, i requires 0 <= i < |ids| => Bound(i, ids[i]))
  }

  lemma InsertAt(sorted: seq<Bound>, i: nat, b: Bound)
    requires Ascending(sorted) && i <= |sorted|
    requires i > 0 ==> sorted[i - 1].id <= b.id
    requires forall j :: i <= j < |sorted| ==> sorted[j].id > b.id
    ensures var r := sorted[..i] + [b] + sorted[i..];
            Ascending(r) && multiset(r) == multiset(sorted) + multiset{b} && |r| == |sorted| + 1
  {
    InsertMultiset(sorted[..i], b, sorted[i..]);
    assert sorted == sorted[..i] + sorted[i..];
    InsertAscending(sorted, i, b);
  }

  lemma InsertMultiset(front: seq<Bound>, b: Bound, back: seq<Bound>)
    ensures multiset(front + [b] + back) == multiset(front + back) + multiset{b}
  {
  }

  lemma InsertAscending(sorted: seq<Bound>, i: nat, b: Bound)
    requires Ascending(sorted) && i <= |sorted|
    requires i > 0 ==> sorted[i - 1].id <= b.id
    requires forall j :: i <= j < |sorted| ==> sorted[j].id > b.id
    ensures Ascending(sorted[..i] + [b] + sorted[i..])
  {
    var r := sorted[..i] + [b] + sorted[i..];
    forall x | 0 <= x < |r|
      ensures r[x] == if x < i then sorted[x] else if x == i then b else sorted[x - 1]
    {
    }
    assert forall x :: 0 <= x < i ==> sorted[x].id <= b.id;
  }

  /** Put one declaration in its place among those already sorted. */
  method InsertSorted(sorted: seq<Bound>, b: Bound) returns (r: seq<Bound>)
    requires Ascending(sorted)
    ensures Ascending(r) && multiset(r) == multiset(sorted) + multiset{b} && |r| == |sorted| + 1
  {
    var i := |sorted|;
    while i > 0 && sorted[i - 1].id > b.id
      invariant 0 <= i <= |sorted|
      invariant forall j :: i <= j < |sorted| ==> sorted[j].id > b.id
    {
      i := i - 1;
    }
    InsertAt(sorted, i, b);
    r := sorted[..i] + [b] + sorted[i..];
  }

  /** The declarations in order of their IDs. */
  method SortBounds(ids: seq<nat>) returns (r: seq<Bound>)
    ensures Ascending(r) && multiset(r) == multiset(Enumerated(ids)) && |r| == |ids|
  {
    var all := Enumerated(ids);
    r := [];
    for i := 0 to |all|
      invariant Ascending(r) && multiset(r) == multiset(all[..i]) && |r| == i
    {
      assert all[..i + 1] == all[..i] + [all[i]];
      r := InsertSorted(r, all[i]);
    }
    assert all[..|all|] == all;
  }

  predicate Duplicated(ids: seq<nat>) {
    exists i, j :: 0 <= i < j < |ids| && ids[i] == ids[j]
  }

  /** In sorted order, equal IDs are neighbours: no pair equal means none anywhere. */
  lemma {:induction false} NeighboursSuffice(bounds: seq<Bound>)
    requires Ascending(bounds)
    requires forall i :: 0 <= i < |bounds| - 1 ==> bounds[i].id != bounds[i + 1].id
    ensures StrictlyAscending(bounds)
  {
    forall i, j | 0 <= i < j < |bounds|
      ensures bounds[i].id < bounds[j].id
    {
      assert bounds[i].id != bounds[i + 1].id;
      assert bounds[i].id <= bounds[i + 1].id <= bounds[j].id;
    }
  }

  /** The declarations occur once each in the sorted order. */
  lemma SortedDeclarations(ids: seq<nat>, bounds: seq<Bound>, d: nat)
    requires multiset(bounds) == multiset(Enumerated(ids)) && d < |ids|
    ensures Bound(d, ids[d]) in bounds
  {
    assert Enumerated(ids)[d] == Bound(d, ids[d]);
    assert Bound(d, ids[d]) in multiset(Enumerated(ids));
  }

  lemma SortedMember(ids: seq<nat>, bounds: seq<Bound>, k: nat)
    requires multiset(bounds) == multiset(Enumerated(ids)) && k < |bounds|
    ensures bounds[k].declaration < |ids| && bounds[k].id == ids[bounds[k].declaration]
  {
    assert bounds[k] in multiset(bounds);
    assert bounds[k] in Enumerated(ids);
  }

  /** The adjacent check finds every duplicate and nothing else. */
  lemma DuplicatesFound(ids: seq<nat>, bounds: seq<Bound>)
    requires Ascending(bounds) && multiset(bounds) == multiset(Enumerated(ids)) && |bounds| == |ids|
    ensures Duplicated(ids) <==> exists i :: 0 <= i < |bounds| - 1 && bounds[i].id == bounds[i + 1].id
  {
    if i :| 0 <= i < |bounds| - 1 && bounds[i].id == bounds[i + 1].id {
      SortedMember(ids, bounds, i);
      SortedMember(ids, bounds, i + 1);
      Distinct(ids, bounds, i, i + 1);
    } else {
      NeighboursSuffice(bounds);
      forall a, b | 0 <= a < b < |ids|
        ensures ids[a] != ids[b]
      {
        SortedDeclarations(ids, bounds, a);
        SortedDeclarations(ids, bounds, b);
        var i :| 0 <= i < |bounds| && bounds[i] == Bound(a, ids[a]);
        var j :| 0 <= j < |bounds| && bounds[j] == Bound(b, ids[b]);
        assert i < j || j < i;
      }
    }
  }

  /** Different places of the sorted order hold different declarations. */
  lemma Distinct(ids: seq<nat>, bounds: seq<Bound>, i: nat, j: nat)
    requires multiset(bounds) == multiset(Enumerated(ids)) && i < j < |bounds|
    ensures bounds[i].declaration != bounds[j].declaration
  {
    if bounds[i].declaration == bounds[j].declaration {
      SortedMember(ids, bounds, i);
      SortedMember(ids, bounds, j);
      var b := bounds[i];
      Twice(bounds, i, j);
      Once(ids, b.declaration);
    }
  }

  lemma Twice(bounds: seq<Bound>, i: nat, j: nat)
    requires i < j < |bounds| && bounds[i] == bounds[j]
    ensures multiset(bounds)[bounds[i]] >= 2
  {
    assert bounds == bounds[..i] + [bounds[i]] + bounds[i + 1..j] + [bounds[j]] + bounds[j + 1..];
  }

  lemma Once(ids: seq<nat>, d: nat)
    requires d < |ids|
    ensures multiset(Enumerated(ids))[Bound(d, ids[d])] == 1
  {
    var all := Enumerated(ids);
    assert all == all[..d] + [all[d]] + all[d + 1..];
  }

  // ---------------------------------------------------------------- what binding means

  /** Two operands do not share a byte. */
  predicate Apart(a: Patch, b: Patch) {
    a.offset + 2 <= b.offset || b.offset + 2 <= a.offset
  }

  predicate PatchValid(p: Patch, tables: nat, tableEnd: nat, length: nat) {
    p.declaration < tables && tableEnd <= p.offset && p.offset + 2 <= length
  }

  /** The table array and the operands are the only bytes binding may change. */
  predicate Rewritten(k: nat, tableOffset: nat, tableEnd: nat, patches: seq<Patch>) {
    tableOffset <= k < tableEnd || exists i :: 0 <= i < |patches| && patches[i].offset <= k < patches[i].offset + 2
  }

  function TableAt(program: ByteString, tableOffset: nat, slot: nat): nat
    requires tableOffset + 8 * slot + 8 <= |program|
  {
    FromLittleEndian(program[tableOffset + 8 * slot..tableOffset + 8 * slot + 8])
  }

  function OperandAt(program: ByteString, offset: nat): nat
    requires offset + 2 <= |program|
  {
    FromLittleEndian(program[offset..offset + 2])
  }

  /** Every operand resolves, through the table array, to the ID bound to its declaration. */
  ghost predicate Binds(template: ByteString, program: ByteString, tableOffset: nat, patches: seq<Patch>,
      ids: seq<nat>)
  {
    var tableEnd := tableOffset + 8 * |ids|;
    && |program| == |template| && tableEnd <= |program|
    && (forall a, b :: 0 <= a < b < |ids| ==> TableAt(program, tableOffset, a) < TableAt(program, tableOffset, b))
    && (forall d :: 0 <= d < |ids| ==> InTable(program, tableOffset, |ids|, ids[d]))
    && (forall k :: 0 <= k < |template| && !Rewritten(k, tableOffset, tableEnd, patches) ==> program[k] == template[k])
    && (forall i :: 0 <= i < |patches| && LastWriter(patches, i) ==> Resolves(program, tableOffset, patches[i], ids))
  }

  ghost predicate InTable(program: ByteString, tableOffset: nat, tables: nat, id: nat)
    requires tableOffset + 8 * tables <= |program|
  {
    exists slot: nat :: slot < tables && TableAt(program, tableOffset, slot) == id
  }

  /** No later patch touches this operand. */
  ghost predicate LastWriter(patches: seq<Patch>, i: nat)
    requires i < |patches|
  {
    forall j :: i < j < |patches| ==> Apart(patches[i], patches[j])
  }

  ghost predicate Resolves(program: ByteString, tableOffset: nat, p: Patch, ids: seq<nat>)
    requires tableOffset + 8 * |ids| <= |program|
  {
    && p.offset + 2 <= |program| && p.declaration < |ids|
    && OperandAt(program, p.offset) < |ids|
    && TableAt(program, tableOffset, OperandAt(program, p.offset)) == ids[p.declaration]
  }

  // ---------------------------------------------------------------- the loops

  /** Overwrite bytes of a program in place. */
  function Patched(program: ByteString, offset: nat, bytes: ByteString): (r: ByteString)
    requires offset + |bytes| <= |program|
    ensures |r| == |program|
    ensures r[offset..offset + |bytes|] == bytes
    ensures forall k :: 0 <= k < |program| && !(offset <= k < offset + |bytes|) ==> r[k] == program[k]
  {
    program[..offset] + bytes + program[offset + |bytes|..]
  }

  lemma KeptSlice(before: ByteString, after: ByteString, i: nat, j: nat)
    requires |before| == |after| && i <= j <= |before|
    requires forall k :: i <= k < j ==> after[k] == before[k]
    ensures after[i..j] == before[i..j]
  {
  }

  /** Fill the table array in sorted order and note the slot of each declaration. */
  method FillTables(template: ByteString, tableOffset: nat, sorted: seq<Bound>)
    returns (program: ByteString, slots: map<nat, nat>)
    requires tableOffset + 8 * |sorted| <= |template|
    requires forall k :: 0 <= k < |sorted| ==> ValidTableId(sorted[k].id)
    requires forall i, j :: 0 <= i < j < |sorted| ==> sorted[i].declaration != sorted[j].declaration
    ensures |program| == |template|
    ensures forall k :: 0 <= k < |sorted| ==> TableAt(program, tableOffset, k) == sorted[k].id
    ensures forall k :: 0 <= k < |template| && !(tableOffset <= k < tableOffset + 8 * |sorted|) ==>
            program[k] == template[k]
    ensures forall k :: 0 <= k < |sorted| ==> sorted[k].declaration in slots && slots[sorted[k].declaration] == k
    ensures forall d :: d in slots ==> slots[d] < |sorted| && sorted[slots[d]].declaration == d
  {
    hide FromLittleEndian, LittleEndian;
    program, slots := template, map[];
    for slot := 0 to |sorted|
      invariant |program| == |template|
      invariant forall k :: 0 <= k < slot ==> TableAt(program, tableOffset, k) == sorted[k].id
      invariant forall k :: 0 <= k < |template| && !(tableOffset <= k < tableOffset + 8 * slot) ==>
                program[k] == template[k]
      invariant forall k :: 0 <= k < slot ==> sorted[k].declaration in slots && slots[sorted[k].declaration] == k
      invariant forall d :: d in slots ==> slots[d] < slot && sorted[slots[d]].declaration == d
    {
      var at := tableOffset + 8 * slot;
      var before := program;
      program := Patched(program, at, LittleEndian(sorted[slot].id, 8));
      slots := slots[sorted[slot].declaration := slot];
      WordRoundTrip(sorted[slot].id);
      forall k | 0 <= k < slot
        ensures TableAt(program, tableOffset, k) == sorted[k].id
      {
        KeptSlice(before, program, tableOffset + 8 * k, tableOffset + 8 * k + 8);
      }
    }
  }

  lemma WordRoundTrip(id: nat)
    requires ValidTableId(id)
    ensures FromLittleEndian(LittleEndian(id, 8)) == id
  {
    Base8();
    LittleEndianRoundTrip(id, 8);
  }

  lemma HalfRoundTrip(slot: nat)
    requires slot < MAX_TABLES
    ensures FromLittleEndian(LittleEndian(slot, 2)) == slot
  {
    Base8();
    LittleEndianRoundTrip(slot, 2);
  }

  /**
   `bind_program`: on success every operand that no later patch overwrites names the slot
   of its declaration's table, the table array ascends strictly, and no other byte changes.
   It fails exactly when an ID is invalid or repeated or a range does not fit.
   */
  method BindProgram(template: ByteString, tableOffset: nat, patches: seq<Patch>, ids: seq<nat>,
      arguments: ByteString) returns (r: Result<ByteString>)
    ensures r.Ok? <==>
              && |arguments| <= MAX_ARGUMENT_BYTES
              && |ids| <= MAX_TABLES && tableOffset + 8 * |ids| <= |template|
              && (forall d :: 0 <= d < |ids| ==> ValidTableId(ids[d])) && !Duplicated(ids)
              && (forall i :: 0 <= i < |patches| ==> PatchValid(patches[i], |ids|, tableOffset + 8 * |ids|, |template|))
    ensures r.Ok? ==> Binds(template, r.value, tableOffset, patches, ids)
  {
    hide FromLittleEndian, LittleEndian, Patched, Duplicated;
    if |arguments| > MAX_ARGUMENT_BYTES {
      return Err(InvalidInput);
    }
    var count := |ids|;
    if count > MAX_TABLES || tableOffset + 8 * count > |template| {
      return Err(InvalidInput);
    }
    var tableEnd := tableOffset + 8 * count;
    for d := 0 to count
      invariant forall k :: 0 <= k < d ==> ValidTableId(ids[k])
    {
      if !ValidTableId(ids[d]) {
        return Err(InvalidInput);
      }
    }
    var sorted := SortBounds(ids);
    DuplicatesFound(ids, sorted);
    var pair := 0;
    while pair + 1 < |sorted|
      invariant forall k :: 0 <= k < pair && k + 1 < |sorted| ==> sorted[k].id != sorted[k + 1].id
    {
      if sorted[pair].id == sorted[pair + 1].id {
        return Err(InvalidInput);
      }
      pair := pair + 1;
    }
    NeighboursSuffice(sorted);
    SortedBounds(ids, sorted);
    var tables, slots := FillTables(template, tableOffset, sorted);
    SlotsOf(ids, sorted, slots);
    var patched := PatchOperands(template, tables, tableOffset, patches, count, slots);
    if patched.Err? {
      return Err(InvalidInput);
    }
    BoundProgram(template, tables, patched.value, tableOffset, patches, ids, sorted, slots);
    r := patched;
  }

  /** Rewrite each operand to the slot of its declaration. */
  method PatchOperands(template: ByteString, tables: ByteString, tableOffset: nat, patches: seq<Patch>, count: nat,
      slots: map<nat, nat>) returns (r: Result<ByteString>)
    requires |tables| == |template| && tableOffset + 8 * count <= |template| && count <= MAX_TABLES
    requires forall d :: 0 <= d < count ==> d in slots && slots[d] < count
    requires forall k :: 0 <= k < |template| && !(tableOffset <= k < tableOffset + 8 * count) ==>
             tables[k] == template[k]
    ensures r.Ok? <==>
            forall i :: 0 <= i < |patches| ==> PatchValid(patches[i], count, tableOffset + 8 * count, |template|)
    ensures r.Ok? ==>
              var program, tableEnd := r.value, tableOffset + 8 * count;
              && |program| == |template|
              && (forall k :: 0 <= k < tableEnd ==> program[k] == tables[k])
              && (forall k :: tableEnd <= k < |template| && !Rewritten(k, tableOffset, tableEnd, patches) ==>
                    program[k] == template[k])
              && (forall i :: 0 <= i < |patches| && LastWriter(patches, i) ==> NamesSlot(program, patches[i], slots))
  {
    hide FromLittleEndian, LittleEndian, Patched;
    var tableEnd := tableOffset + 8 * count;
    var program := tables;
    for i := 0 to |patches|
      invariant |program| == |template|
      invariant forall j :: 0 <= j < i ==> PatchValid(patches[j], count, tableEnd, |template|)
      invariant forall k :: 0 <= k < tableEnd ==> program[k] == tables[k]
      invariant forall k :: tableEnd <= k < |template| && !Rewritten(k, tableOffset, tableEnd, patches[..i]) ==>
                program[k] == template[k]
      invariant forall j :: 0 <= j < i && LastWriter(patches[..i], j) ==> NamesSlot(program, patches[j], slots)
    {
      var p := patches[i];
      if p.declaration >= count || p.offset < tableEnd || p.offset + 2 > |program| {
        return Err(InvalidInput);
      }
      var before := program;
      program := Patched(program, p.offset, LittleEndian(slots[p.declaration], 2));
      HalfRoundTrip(slots[p.declaration]);
      PatchedOperands(before, program, patches, i, slots, tableOffset, tableEnd, template);
    }
    assert patches[..|patches|] == patches;
    r := Ok(program);
  }

  /** An operand holds the slot of its declaration. */
  predicate NamesSlot(program: ByteString, p: Patch, slots: map<nat, nat>) {
    p.declaration in slots && p.offset + 2 <= |program| && OperandAt(program, p.offset) == slots[p.declaration]
  }

  lemma SlotsOf(ids: seq<nat>, sorted: seq<Bound>, slots: map<nat, nat>)
    requires multiset(sorted) == multiset(Enumerated(ids)) && |sorted| == |ids| <= MAX_TABLES
    requires forall k :: 0 <= k < |sorted| ==> sorted[k].declaration in slots && slots[sorted[k].declaration] == k
    ensures forall d :: 0 <= d < |ids| ==> d in slots && slots[d] < |ids|
  {
    forall d | 0 <= d < |ids|
      ensures d in slots && slots[d] < |ids|
    {
      SlotOf(ids, sorted, slots, d);
    }
  }

  lemma SortedBounds(ids: seq<nat>, sorted: seq<Bound>)
    requires multiset(sorted) == multiset(Enumerated(ids)) && |sorted| == |ids|
    requires forall d :: 0 <= d < |ids| ==> ValidTableId(ids[d])
    ensures forall k :: 0 <= k < |sorted| ==> ValidTableId(sorted[k].id)
    ensures forall i, j :: 0 <= i < j < |sorted| ==> sorted[i].declaration != sorted[j].declaration
  {
    forall k | 0 <= k < |sorted|
      ensures ValidTableId(sorted[k].id)
    {
      SortedMember(ids, sorted, k);
    }
    forall i, j | 0 <= i < j < |sorted|
      ensures sorted[i].declaration != sorted[j].declaration
    {
      Distinct(ids, sorted, i, j);
    }
  }

  lemma SlotOf(ids: seq<nat>, sorted: seq<Bound>, slots: map<nat, nat>, d: nat)
    requires multiset(sorted) == multiset(Enumerated(ids)) && |sorted| == |ids| <= MAX_TABLES && d < |ids|
    requires forall k :: 0 <= k < |sorted| ==> sorted[k].declaration in slots && slots[sorted[k].declaration] == k
    ensures d in slots && slots[d] < |ids| && sorted[slots[d]] == Bound(d, ids[d])
  {
    SortedDeclarations(ids, sorted, d);
    var k :| 0 <= k < |sorted| && sorted[k] == Bound(d, ids[d]);
  }

  /** One more operand is written; those that stay last writers keep their slots. */
  lemma PatchedOperands(before: ByteString, after: ByteString, patches: seq<Patch>, i: nat, slots: map<nat, nat>,
      tableOffset: nat, tableEnd: nat, template: ByteString)
    requires i < |patches| && |before| == |after| == |template|
    requires NamesSlot(after, patches[i], slots)
    requires forall k :: 0 <= k < |before| && !(patches[i].offset <= k < patches[i].offset + 2) ==>
             after[k] == before[k]
    requires forall j :: 0 <= j < i && LastWriter(patches[..i], j) ==> NamesSlot(before, patches[j], slots)
    requires forall k :: tableEnd <= k < |template| && !Rewritten(k, tableOffset, tableEnd, patches[..i]) ==>
             before[k] == template[k]
    ensures forall j :: 0 <= j < i + 1 && LastWriter(patches[..i + 1], j) ==> NamesSlot(after, patches[j], slots)
    ensures forall k :: tableEnd <= k < |template| && !Rewritten(k, tableOffset, tableEnd, patches[..i + 1]) ==>
            after[k] == template[k]
  {
    hide FromLittleEndian;
    forall j | 0 <= j < i + 1 && LastWriter(patches[..i + 1], j)
      ensures NamesSlot(after, patches[j], slots)
    {
      if j < i {
        assert Apart(patches[..i + 1][j], patches[..i + 1][i]);
        EarlierWriter(patches, i, j);
        KeptSlice(before, after, patches[j].offset, patches[j].offset + 2);
      }
    }
    forall k | tableEnd <= k < |template| && !Rewritten(k, tableOffset, tableEnd, patches[..i + 1])
      ensures after[k] == template[k]
    {
      assert patches[..i + 1][i] == patches[i];
      RewrittenLess(k, tableOffset, tableEnd, patches, i);
    }
  }

  lemma EarlierWriter(patches: seq<Patch>, i: nat, j: nat)
    requires j < i < |patches| && LastWriter(patches[..i + 1], j)
    ensures LastWriter(patches[..i], j)
  {
    forall k | j < k < i
      ensures Apart(patches[..i][j], patches[..i][k])
    {
      assert Apart(patches[..i + 1][j], patches[..i + 1][k]);
    }
  }

  lemma RewrittenLess(k: nat, tableOffset: nat, tableEnd: nat, patches: seq<Patch>, i: nat)
    requires i < |patches| && !Rewritten(k, tableOffset, tableEnd, patches[..i + 1])
    ensures !Rewritten(k, tableOffset, tableEnd, patches[..i]) && !(patches[i].offset <= k < patches[i].offset + 2)
  {
    assert patches[..i + 1][i] == patches[i];
    forall j | 0 <= j < i
      ensures !(patches[..i][j].offset <= k < patches[..i][j].offset + 2)
    {
      assert patches[..i][j] == patches[..i + 1][j];
    }
  }

  lemma BoundProgram(template: ByteString, tables: ByteString, program: ByteString, tableOffset: nat,
      patches: seq<Patch>, ids: seq<nat>, sorted: seq<Bound>, slots: map<nat, nat>)
    requires |program| == |tables| == |template| && tableOffset + 8 * |ids| <= |template|
             && |ids| == |sorted| <= MAX_TABLES
    requires StrictlyAscending(sorted) && multiset(sorted) == multiset(Enumerated(ids))
    requires forall k :: 0 <= k < |sorted| ==> sorted[k].declaration in slots && slots[sorted[k].declaration] == k
    requires forall k :: 0 <= k < |sorted| ==> TableAt(tables, tableOffset, k) == sorted[k].id
    requires forall k :: 0 <= k < |template| && !(tableOffset <= k < tableOffset + 8 * |ids|) ==>
             tables[k] == template[k]
    requires forall k :: 0 <= k < tableOffset + 8 * |ids| ==> program[k] == tables[k]
    requires forall k ::
             tableOffset + 8 * |ids| <= k < |template|
             && !Rewritten(k, tableOffset, tableOffset + 8 * |ids|, patches) ==>
               program[k] == template[k]
    requires forall i :: 0 <= i < |patches| ==> PatchValid(patches[i], |ids|, tableOffset + 8 * |ids|, |template|)
    requires forall i :: 0 <= i < |patches| && LastWriter(patches, i) ==> NamesSlot(program, patches[i], slots)
    ensures Binds(template, program, tableOffset, patches, ids)
  {
    hide FromLittleEndian;
    forall k: nat | k < |sorted|
      ensures TableAt(program, tableOffset, k) == sorted[k].id
    {
      KeptSlice(tables, program, tableOffset + 8 * k, tableOffset + 8 * k + 8);
    }
    forall d | 0 <= d < |ids|
      ensures InTable(program, tableOffset, |ids|, ids[d])
    {
      SlotOf(ids, sorted, slots, d);
      assert TableAt(program, tableOffset, slots[d]) == ids[d];
    }
    forall i | 0 <= i < |patches| && LastWriter(patches, i)
      ensures Resolves(program, tableOffset, patches[i], ids)
    {
      assert PatchValid(patches[i], |ids|, tableOffset + 8 * |ids|, |template|);
      SlotOf(ids, sorted, slots, patches[i].declaration);
    }
  }
}
