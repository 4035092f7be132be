/**
 Reuse of checkpoint validation: a live owner carries proofs about its copy-on-write
 roots across edits instead of scanning whole trees again, and an index of the entries
 above the checkpoint instead of searching for them.
 */
module Checkpoint {
  import opened Common
  import opened Bytes
  import opened Mvcc
  import KeyEncoding
  import StateReads
  import opened Manifests

  const STATE := 0
  const CATALOGUE := 1
  const POLICY := 2
  const CURSORS := 4
  const PENDING_LIMIT := 1024 * 1024
  const ENTRY_OVERHEAD := 96

  /** A tree is what its root maps; roots are never reused, so a root fixes its contents. */
  type Contents = map<ByteString, ByteString>

  type Pages = map<nat, Contents>

  datatype Mutation = Mutation(tree: nat, key: ByteString, value: Option<ByteString>)

  /** The genesis policy and the policy decoder. */
  datatype Format = Format(initialPolicy: ByteString, validPolicy: ByteString -> bool)

  const FIRST_POLICY: ByteString := [0, 0, 0, 0, 0, 0, 0, 0]

  /** What a scan of the tree at `root` would establish. */
  datatype Proof = Proof(root: nat, sequence: nat)

  type Key = (nat, ByteString)

  datatype Pending = Pending(keys: map<Key, nat>, bytes: nat)

  function At(pages: Pages, root: nat): Contents {
    if root != 0 && root in pages then pages[root] else map[]
  }

  // ---------------------------------------------------------------- the full scan

  /** `entry_sequence`. */
  function EntrySequence(tree: nat, key: ByteString): Result<nat> {
    var sequence :-
      if tree == STATE then
        (match DecodeStateKey(key) case Ok(k) => Ok(k.sequence) case Err(_) => Err(Corrupt))
      else if tree == CATALOGUE then
        if |key| != 16 then Err(Corrupt)
        else
          var table, complement := FromBigEndian(key[..8]), FromBigEndian(key[8..]);
          if complement > U64_MAX || table == 0 || table > U64_MAX - complement then Err(Corrupt)
          else Ok(U64_MAX - complement)
      else if |key| != 8 then Err(Corrupt)
      else
        var sequence := FromBigEndian(key);
        if tree != POLICY && sequence == 0 then Err(Corrupt) else Ok(sequence);
    if sequence >= U64_MAX then Err(Corrupt) else Ok(sequence)
  }

  /**
   Which keys name a sequence, and which: a row's version, a catalogue version of a table no
   younger than itself, or eight big-endian bytes, zero for the policy alone.
   */
  lemma SequenceExact(tree: nat, key: ByteString, n: nat)
    ensures EntrySequence(tree, key) == Ok(n) <==>
            && n < U64_MAX
            && if tree == STATE then
                 exists k :: ValidStateKey(k) && key == EncodeStateKey(k) && k.sequence == n
               else if tree == CATALOGUE then
                 exists table: nat :: 0 < table <= n && key == BigEndian(table, 8) + BigEndian(U64_MAX - n, 8)
               else key == BigEndian(n, 8) && (tree != POLICY ==> n > 0)
  {
    Base8();
    if tree == STATE {
      if DecodeStateKey(key).Ok? {
        AcceptedStateKey(key);
      }
      if k :| ValidStateKey(k) && key == EncodeStateKey(k) && k.sequence == n {
        Mvcc.DecodeOfEncode(k);
      }
    } else if tree == CATALOGUE {
      if |key| == 16 {
        FromBigEndianRoundTrip(key[..8]);
        FromBigEndianRoundTrip(key[8..]);
        assert key == key[..8] + key[8..];
      }
      if table: nat :| 0 < table <= n && n < U64_MAX && key == BigEndian(table, 8) + BigEndian(U64_MAX - n, 8) {
        assert key[..8] == BigEndian(table, 8) && key[8..] == BigEndian(U64_MAX - n, 8);
        BigEndianRoundTrip(table, 8);
        BigEndianRoundTrip(U64_MAX - n, 8);
      }
    } else {
      FromBigEndianRoundTrip(key);
      if n < U64_MAX {
        BigEndianRoundTrip(n, 8);
      }
    }
  }

  /** `valid_value`. */
  predicate ValidValue(f: Format, tree: nat, value: ByteString) {
    if tree == STATE then StateReads.Payload(value).Ok?
    else if tree == POLICY then f.validPolicy(value)
    else true
  }

  predicate EntryAccepted(f: Format, tree: nat, key: ByteString, value: ByteString, limit: nat) {
    EntrySequence(tree, key).Ok? && EntrySequence(tree, key).value <= limit && ValidValue(f, tree, value)
  }

  /** What the full scan of a system tree accepts, with every sequence at most `limit`. */
  ghost predicate ScanAccepts(f: Format, tree: nat, contents: Contents, limit: nat) {
    && (forall key :: key in contents ==> EntryAccepted(f, tree, key, contents[key], limit))
    && (tree == POLICY ==> FIRST_POLICY in contents && contents[FIRST_POLICY] == f.initialPolicy)
  }

  /** `validate_cursor`: a value of version 1 whose baseline the manifest's floors still cover. */
  predicate ValidCursor(m: Manifest, id: nat, value: ByteString) {
    && id < m.nextCursor && 16 <= |value| <= 271
    && FromLittleEndian(value[..2]) == 1 && 1 <= value[2] <= 3 && value[3] == 0
    && BaselineCovered(m, value[2], FromLittleEndian(value[4..12]))
    && FromLittleEndian(value[12..16]) == |value| - 16 && 0 !in value[16..] && KeyEncoding.Utf8(value[16..])
  }

  predicate BaselineCovered(m: Manifest, kind: Byte, baseline: nat) {
    m.historyFloor <= baseline <= m.durable && (kind != 1 ==> m.logFloor <= baseline + 1)
  }

  predicate CursorAccepted(m: Manifest, key: ByteString, value: ByteString) {
    EntrySequence(CURSORS, key).Ok? && ValidCursor(m, EntrySequence(CURSORS, key).value, value)
  }

  ghost predicate CursorsAccepted(m: Manifest, contents: Contents) {
    forall key :: key in contents ==> CursorAccepted(m, key, contents[key])
  }

  /** Validation without any proof: four system trees bounded by the checkpoint, and the current cursors. */
  ghost predicate Accepts(f: Format, pages: Pages, m: Manifest)
    requires |m.roots| == 5
  {
    && (forall i :: 0 <= i < 4 ==> ScanAccepts(f, i, At(pages, m.roots[i]), m.checkpoint))
    && CursorsAccepted(m, At(pages, m.roots[CURSORS]))
  }

  ghost predicate ProofHolds(f: Format, tree: nat, pages: Pages, p: Proof) {
    ScanAccepts(f, tree, At(pages, p.root), p.sequence)
  }

  ghost predicate ProofsHold(f: Format, pages: Pages, proofs: seq<Option<Proof>>) {
    |proofs| == 4 && forall i :: 0 <= i < 4 && proofs[i].Some? ==> ProofHolds(f, i, pages, proofs[i].value)
  }

  // ---------------------------------------------------------------- validation

  /** The loop over one tree: refuse what the scan refuses, and report the greatest sequence. */
  method ScanTree(f: Format, tree: nat, contents: Contents, limit: nat) returns (r: Result<nat>)
    ensures r.Ok? <==> ScanAccepts(f, tree, contents, limit)
    ensures r.Ok? ==> r.value <= limit && ScanAccepts(f, tree, contents, r.value)
    ensures r.Ok? ==> r.value == 0 || exists key :: key in contents && EntrySequence(tree, key) == Ok(r.value)
  {
    hide EntrySequence, ValidValue;
    var rest := contents.Keys;
    var maximum: nat := 0;
    while rest != {}
      invariant rest <= contents.Keys && maximum <= limit
      invariant forall key :: key in contents && key !in rest ==> EntryAccepted(f, tree, key, contents[key], maximum)
      invariant maximum == 0 || exists key :: key in contents && EntrySequence(tree, key) == Ok(maximum)
      decreases |rest|
    {
      var key :| key in rest;
      rest := rest - {key};
      var sequence := EntrySequence(tree, key);
      if sequence.Err? || sequence.value > limit || !ValidValue(f, tree, contents[key]) {
        assert !EntryAccepted(f, tree, key, contents[key], limit);
        return Err(Corrupt);
      }
      if sequence.value > maximum {
        maximum := sequence.value;
      }
    }
    if tree == POLICY && (FIRST_POLICY !in contents || contents[FIRST_POLICY] != f.initialPolicy) {
      return Err(Corrupt);
    }
    r := Ok(maximum);
  }

  /** The cursor tree is current rather than cut at the checkpoint, so it is scanned every time. */
  method ScanCursors(m: Manifest, contents: Contents) returns (ok: bool)
    ensures ok <==> CursorsAccepted(m, contents)
  {
    hide CursorAccepted;
    var rest := contents.Keys;
    while rest != {}
      invariant rest <= contents.Keys
      invariant forall key :: key in contents && key !in rest ==> CursorAccepted(m, key, contents[key])
      decreases |rest|
    {
      var key :| key in rest;
      rest := rest - {key};
      if !CursorAccepted(m, key, contents[key]) {
        return false;
      }
    }
    ok := true;
  }

  /** Whether a proof spares the scan of a tree. */
  predicate Reusable(p: Option<Proof>, root: nat, checkpoint: nat) {
    p.Some? && p.value.root == root && p.value.sequence <= checkpoint
  }

  /**
   `validate`: scan every system tree that no proof covers, then the cursors. With sound proofs it accepts
   exactly what it would accept with none, and the proofs it returns are sound.
   */
  method Validate(f: Format, pages: Pages, m: Manifest, proofs: seq<Option<Proof>>)
    returns (r: Result<seq<Option<Proof>>>)
    requires |m.roots| == 5 && ProofsHold(f, pages, proofs)
    ensures r.Ok? <==> Accepts(f, pages, m)
    ensures r.Ok? ==> ProofsHold(f, pages, r.value)
    ensures r.Ok? ==> forall i :: 0 <= i < 4 ==>
              r.value[i].Some? && r.value[i].value.root == m.roots[i] && r.value[i].value.sequence <= m.checkpoint
  {
    hide ScanAccepts, CursorsAccepted;
    var validated: seq<Option<Proof>> := [];
    for i := 0 to 4
      invariant |validated| == i
      invariant forall j :: 0 <= j < i ==> ScanAccepts(f, j, At(pages, m.roots[j]), m.checkpoint)
      invariant forall j :: 0 <= j < i ==>
                  validated[j].Some? && validated[j].value.root == m.roots[j]
                      && validated[j].value.sequence <= m.checkpoint
                  && ProofHolds(f, j, pages, validated[j].value)
    {
      if Reusable(proofs[i], m.roots[i], m.checkpoint) {
        RaiseLimit(f, i, At(pages, m.roots[i]), proofs[i].value.sequence, m.checkpoint);
        validated := validated + [proofs[i]];
      } else {
        var maximum := ScanTree(f, i, At(pages, m.roots[i]), m.checkpoint);
        if maximum.Err? {
          return Err(Corrupt);
        }
        validated := validated + [Some(Proof(m.roots[i], maximum.value))];
      }
    }
    var cursors := ScanCursors(m, At(pages, m.roots[CURSORS]));
    r := if cursors then Ok(validated) else Err(Corrupt);
  }

  lemma RaiseLimit(f: Format, tree: nat, contents: Contents, low: nat, high: nat)
    requires ScanAccepts(f, tree, contents, low) && low <= high
    ensures ScanAccepts(f, tree, contents, high)
  {
    hide EntrySequence, ValidValue;
    forall key | key in contents
      ensures EntryAccepted(f, tree, key, contents[key], high)
    {
      assert EntryAccepted(f, tree, key, contents[key], low);
    }
  }

  // ---------------------------------------------------------------- edits

  function Edit(contents: Contents, change: Mutation): Contents {
    if change.value.Some? then contents[change.key := change.value.value] else contents - {change.key}
  }

  /** What a batch of edits leaves of one tree. */
  function Edited(tree: nat, contents: Contents, changes: seq<Mutation>): Contents {
    if changes == [] then contents
    else
      var before := Edited(tree, contents, changes[..|changes| - 1]);
      var last := changes[|changes| - 1];
      if last.tree == tree then Edit(before, last) else before
  }

  /** An edit that a proof may inherit. */
  predicate ValidEdit(f: Format, change: Mutation) {
    && EntrySequence(change.tree, change.key).Ok?
    && (change.value.Some? ==> ValidValue(f, change.tree, change.value.value))
    && !(change.tree == POLICY && change.key == FIRST_POLICY && change.value != Some(f.initialPolicy))
  }

  lemma EditAccepted(f: Format, tree: nat, contents: Contents, change: Mutation, limit: nat, raised: nat)
    requires ScanAccepts(f, tree, contents, limit) && change.tree == tree && ValidEdit(f, change)
    requires limit <= raised && (change.value.Some? ==> EntrySequence(tree, change.key).value <= raised)
    ensures ScanAccepts(f, tree, Edit(contents, change), raised)
  {
    hide EntrySequence, ValidValue;
    var next := Edit(contents, change);
    forall key | key in next
      ensures EntryAccepted(f, tree, key, next[key], raised)
    {
      if key in contents {
        assert EntryAccepted(f, tree, key, contents[key], limit);
      }
    }
  }

  // ---------------------------------------------------------------- the pending index

  function Weight(key: Key): nat {
    |key.1| + ENTRY_OVERHEAD
  }

  ghost function Total(keys: set<Key>): nat {
    if keys == {} then 0
    else
      var key :| key in keys;
      Weight(key) + Total(keys - {key})
  }

  lemma {:induction false} TotalWithout(keys: set<Key>, key: Key)
    requires key in keys
    ensures Total(keys) == Weight(key) + Total(keys - {key})
    decreases keys
  {
    var first :| first in keys && Total(keys) == Weight(first) + Total(keys - {first});
    if first != key {
      TotalWithout(keys - {first}, key);
      TotalWithout(keys - {key}, first);
      assert keys - {first} - {key} == keys - {key} - {first};
    }
  }

  /** An entry of the live trees above the checkpoint. */
  ghost predicate Above(trees: seq<Contents>, checkpoint: nat, key: Key)
    requires |trees| >= 4
  {
    && key.0 < 4 && key.1 in trees[key.0]
    && EntrySequence(key.0, key.1).Ok? && EntrySequence(key.0, key.1).value > checkpoint
  }

  /** The index is exactly the live entries above the checkpoint, with an exact and bounded byte count. */
  ghost predicate PendingExact(p: Pending, trees: seq<Contents>, checkpoint: nat)
    requires |trees| >= 4
  {
    && (forall key :: key in p.keys <==> Above(trees, checkpoint, key))
    && (forall key :: key in p.keys ==> p.keys[key] == EntrySequence(key.0, key.1).value)
    && p.bytes == Total(p.keys.Keys) <= PENDING_LIMIT
  }

  /** The bookkeeping for one edit: forget the key, then add it if it is above the checkpoint and fits. */
  function Track(p: Pending, change: Mutation, checkpoint: nat): Option<Pending> {
    var key := (change.tree, change.key);
    var forgotten :=
      if key in p.keys && p.bytes >= Weight(key) then Pending(p.keys - {key}, p.bytes - Weight(key)) else p;
    match EntrySequence(change.tree, change.key)
    case Err(_) => None
    case Ok(sequence) =>
      if change.value.None? || sequence <= checkpoint then Some(forgotten)
      else if forgotten.bytes + Weight(key) > PENDING_LIMIT then None
      else Some(Pending(forgotten.keys[key := sequence], forgotten.bytes + Weight(key)))
  }

  function EditTrees(trees: seq<Contents>, change: Mutation): seq<Contents> {
    if change.tree < |trees| then trees[change.tree := Edit(trees[change.tree], change)] else trees
  }

  /** Each edit of a system tree keeps the index exact or gives it up. */
  lemma TrackExact(p: Pending, trees: seq<Contents>, change: Mutation, checkpoint: nat)
    requires |trees| == 4 && change.tree < 4 && PendingExact(p, trees, checkpoint)
    ensures Track(p, change, checkpoint).Some? ==>
              PendingExact(Track(p, change, checkpoint).value, EditTrees(trees, change), checkpoint)
    ensures (change.tree, change.key) in p.keys ==> p.bytes >= Weight((change.tree, change.key))
  {
    hide EntrySequence, Total, Track;
    TrackedBytes(p, change, checkpoint);
    if Track(p, change, checkpoint).Some? {
      TrackedKeys(p, trees, change, checkpoint);
    }
  }

  /** The index is given up exactly when the key names no sequence or what is above the checkpoint weighs too much. */
  lemma TrackComplete(p: Pending, trees: seq<Contents>, change: Mutation, checkpoint: nat, keys: set<Key>)
    requires |trees| == 4 && change.tree < 4 && PendingExact(p, trees, checkpoint)
    requires forall key :: key in keys <==> Above(EditTrees(trees, change), checkpoint, key)
    ensures Track(p, change, checkpoint).Some? <==>
            EntrySequence(change.tree, change.key).Ok? && Total(keys) <= PENDING_LIMIT
  {
    hide EntrySequence, Total, Above;
    TrackExact(p, trees, change, checkpoint);
    var key := (change.tree, change.key);
    if EntrySequence(change.tree, change.key).Ok? {
      if Track(p, change, checkpoint).Some? {
        assert Track(p, change, checkpoint).value.keys.Keys == keys;
      } else {
        OverLimit(p, trees, change, checkpoint, keys);
      }
    }
  }

  lemma OverLimit(p: Pending, trees: seq<Contents>, change: Mutation, checkpoint: nat, keys: set<Key>)
    requires |trees| == 4 && change.tree < 4 && PendingExact(p, trees, checkpoint)
    requires forall key :: key in keys <==> Above(EditTrees(trees, change), checkpoint, key)
    requires EntrySequence(change.tree, change.key).Ok? && Track(p, change, checkpoint).None?
    requires (change.tree, change.key) in p.keys ==> p.bytes >= Weight((change.tree, change.key))
    ensures Total(keys) > PENDING_LIMIT
  {
    hide EntrySequence, Total;
    var key, edited := (change.tree, change.key), EditTrees(trees, change);
    var rest := p.keys.Keys - {key};
    if key in p.keys {
      TotalWithout(p.keys.Keys, key);
    } else {
      assert rest == p.keys.Keys;
    }
    forall other: Key
      ensures other in keys <==> other in rest + {key}
    {
      assert other in p.keys <==> Above(trees, checkpoint, other);
      assert other in keys <==> Above(edited, checkpoint, other);
      if other.0 < 4 {
        assert edited[other.0] == if other.0 == change.tree then Edit(trees[other.0], change) else trees[other.0];
      }
    }
    assert keys == rest + {key};
    TotalWithout(keys, key);
    assert keys - {key} == rest;
  }

  lemma TrackedBytes(p: Pending, change: Mutation, checkpoint: nat)
    requires p.bytes == Total(p.keys.Keys) <= PENDING_LIMIT
    ensures (change.tree, change.key) in p.keys ==> p.bytes >= Weight((change.tree, change.key))
    ensures Track(p, change, checkpoint).Some? ==>
              var next := Track(p, change, checkpoint).value; next.bytes == Total(next.keys.Keys) <= PENDING_LIMIT
  {
    hide EntrySequence, Total;
    var key, keys := (change.tree, change.key), p.keys.Keys;
    var rest := keys - {key};
    if key in p.keys {
      TotalWithout(keys, key);
      assert (p.keys - {key}).Keys == rest;
    } else {
      assert rest == keys;
    }
    TotalWithout(rest + {key}, key);
    assert rest + {key} - {key} == rest;
    if Track(p, change, checkpoint).Some? {
      var next := Track(p, change, checkpoint).value;
      assert next.keys.Keys == if key in next.keys then rest + {key} else rest;
    }
  }

  lemma TrackedKeys(p: Pending, trees: seq<Contents>, change: Mutation, checkpoint: nat)
    requires |trees| == 4 && change.tree < 4 && PendingExact(p, trees, checkpoint)
    requires (change.tree, change.key) in p.keys ==> p.bytes >= Weight((change.tree, change.key))
    requires Track(p, change, checkpoint).Some?
    ensures var next := Track(p, change, checkpoint).value;
            && (forall key :: key in next.keys <==> Above(EditTrees(trees, change), checkpoint, key))
            && (forall key :: key in next.keys ==> next.keys[key] == EntrySequence(key.0, key.1).value)
  {
    hide EntrySequence, Total;
    var next, edited := Track(p, change, checkpoint).value, EditTrees(trees, change);
    forall key: Key
      ensures key in next.keys <==> Above(edited, checkpoint, key)
      ensures key in next.keys ==> next.keys[key] == EntrySequence(key.0, key.1).value
    {
      assert key in p.keys <==> Above(trees, checkpoint, key);
      if key.0 < 4 {
        assert edited[key.0] == if key.0 == change.tree then Edit(trees[key.0], change) else trees[key.0];
      }
    }
  }

  /** The index after a batch of edits; cursor edits are not tracked. */
  function TrackAll(p: Pending, changes: seq<Mutation>, checkpoint: nat): Option<Pending> {
    if changes == [] then Some(p)
    else
      match TrackAll(p, changes[..|changes| - 1], checkpoint)
      case None => None
      case Some(before) =>
        var last := changes[|changes| - 1];
        if last.tree == CURSORS then Some(before) else Track(before, last, checkpoint)
  }

  /** After some of the edits the keys above the checkpoint are still all decodable and light enough. */
  ghost predicate Indexable(pages: Pages, previous: seq<nat>, changes: seq<Mutation>, checkpoint: nat)
    requires |previous| == 5 && changes != []
  {
    var last := changes[|changes| - 1];
    last.tree == CURSORS
    || (EntrySequence(last.tree, last.key).Ok?
        && forall keys: set<Key> :: IsAbove(EditedTrees(pages, previous, changes), checkpoint, keys) ==>
             Total(keys) <= PENDING_LIMIT)
  }

  ghost predicate IsAbove(trees: seq<Contents>, checkpoint: nat, keys: set<Key>)
    requires |trees| == 4
  {
    forall key :: key in keys <==> Above(trees, checkpoint, key)
  }

  /** Over a batch the index survives exactly when it stays indexable all the way. */
  lemma {:induction false} TrackAllComplete(p: Pending, pages: Pages, previous: seq<nat>, changes: seq<Mutation>,
      checkpoint: nat)
    requires |previous| == 5 && forall i :: 0 <= i < |changes| ==> changes[i].tree < 5
    requires PendingExact(p, Trees(pages, previous), checkpoint)
    ensures TrackAll(p, changes, checkpoint).Some? <==>
            forall k :: 0 < k <= |changes| ==> Indexable(pages, previous, changes[..k], checkpoint)
    ensures TrackAll(p, changes, checkpoint).Some? ==>
              PendingExact(TrackAll(p, changes, checkpoint).value, EditedTrees(pages, previous, changes), checkpoint)
  {
    hide EntrySequence, PendingExact, Track, Total, Indexable, Edited;
    if changes == [] {
      NothingEdited(pages, previous);
    } else {
      var n := |changes| - 1;
      var front, last := changes[..n], changes[n];
      TrackAllComplete(p, pages, previous, front, checkpoint);
      assert forall k :: 0 < k <= n ==> changes[..k] == front[..k];
      assert changes[..n + 1] == changes;
      if TrackAll(p, front, checkpoint).Some? {
        TrackOne(TrackAll(p, front, checkpoint).value, pages, previous, changes, checkpoint);
      }
    }
  }

  lemma NothingEdited(pages: Pages, previous: seq<nat>)
    requires |previous| == 5
    ensures EditedTrees(pages, previous, []) == Trees(pages, previous)
    ensures forall t :: 0 <= t < 4 ==> Edited(t, At(pages, previous[t]), []) == At(pages, previous[t])
  {
  }

  lemma TrackOne(p: Pending, pages: Pages, previous: seq<nat>, changes: seq<Mutation>, checkpoint: nat)
    requires |previous| == 5 && changes != [] && changes[|changes| - 1].tree < 5
    requires PendingExact(p, EditedTrees(pages, previous, changes[..|changes| - 1]), checkpoint)
    ensures var last := changes[|changes| - 1];
            var next := if last.tree == CURSORS then Some(p) else Track(p, last, checkpoint);
            && (next.Some? <==> Indexable(pages, previous, changes, checkpoint))
            && (next.Some? ==> PendingExact(next.value, EditedTrees(pages, previous, changes), checkpoint))
  {
    hide EntrySequence, PendingExact, Track, Total, Edited, Above;
    var front, last := changes[..|changes| - 1], changes[|changes| - 1];
    if last.tree == CURSORS {
      SkipCursor(pages, previous, changes);
    } else {
      EditStep(pages, previous, changes);
      var before := EditedTrees(pages, previous, front);
      TrackExact(p, before, last, checkpoint);
      forall keys: set<Key> | IsAbove(EditedTrees(pages, previous, changes), checkpoint, keys)
        ensures Track(p, last, checkpoint).Some? <==>
                EntrySequence(last.tree, last.key).Ok? && Total(keys) <= PENDING_LIMIT
      {
        TrackComplete(p, before, last, checkpoint, keys);
      }
      if EntrySequence(last.tree, last.key).Ok? {
        var _ := SomeKeys(p, before, last, checkpoint);
      }
      if EntrySequence(last.tree, last.key).Err? {
        NoTrack(p, last, checkpoint);
      }
    }
  }

  lemma NoTrack(p: Pending, change: Mutation, checkpoint: nat)
    requires EntrySequence(change.tree, change.key).Err?
    ensures Track(p, change, checkpoint).None?
  {
  }

  /** The keys above the checkpoint after an edit are those before it, with or without the edited one. */
  lemma SomeKeys(p: Pending, trees: seq<Contents>, change: Mutation, checkpoint: nat) returns (keys: set<Key>)
    requires |trees| == 4 && change.tree < 4 && PendingExact(p, trees, checkpoint)
    ensures IsAbove(EditTrees(trees, change), checkpoint, keys)
  {
    hide EntrySequence, Total;
    var key, edited := (change.tree, change.key), EditTrees(trees, change);
    keys := p.keys.Keys - {key} + if Above(edited, checkpoint, key) then {key} else {};
    forall other: Key
      ensures other in keys <==> Above(edited, checkpoint, other)
    {
      assert other in p.keys <==> Above(trees, checkpoint, other);
      if other.0 < 4 {
        assert edited[other.0] == if other.0 == change.tree then Edit(trees[other.0], change) else trees[other.0];
      }
    }
  }

  /** A proof of the root being edited. */
  predicate Current(p: Option<Proof>, root: nat) {
    p.Some? && p.value.root == root
  }

  predicate EditsValid(f: Format, tree: nat, changes: seq<Mutation>) {
    forall k :: 0 <= k < |changes| && changes[k].tree == tree ==> ValidEdit(f, changes[k])
  }

  /** The bound of a proof after edits: the greatest sequence put into its tree, if that is greater. */
  function Raised(tree: nat, sequence: nat, changes: seq<Mutation>): nat {
    if changes == [] then sequence
    else
      var before, last := Raised(tree, sequence, changes[..|changes| - 1]), changes[|changes| - 1];
      if last.tree == tree && last.value.Some? && EntrySequence(tree, last.key).Ok?
         && EntrySequence(tree, last.key).value > before
      then EntrySequence(tree, last.key).value else before
  }

  lemma ValidSnoc(f: Format, changes: seq<Mutation>)
    requires changes != []
    ensures forall tree :: EditsValid(f, tree, changes) <==>
              EditsValid(f, tree, changes[..|changes| - 1])
              && (changes[|changes| - 1].tree == tree ==> ValidEdit(f, changes[|changes| - 1]))
  {
    hide ValidEdit;
    var front, last := changes[..|changes| - 1], changes[|changes| - 1];
    forall tree
      ensures EditsValid(f, tree, changes) <==>
              EditsValid(f, tree, front) && (last.tree == tree ==> ValidEdit(f, last))
    {
      assert forall k :: 0 <= k < |front| ==> front[k] == changes[k];
      if EditsValid(f, tree, front) && (last.tree == tree ==> ValidEdit(f, last)) {
        forall k | 0 <= k < |changes| && changes[k].tree == tree
          ensures ValidEdit(f, changes[k])
        {
          if k < |front| {
            assert ValidEdit(f, front[k]);
          }
        }
      }
    }
  }

  /** A proof survives exactly when it was of the edited root and every edit of its tree is valid. */
  ghost predicate Follows(f: Format, tree: nat, first: Option<Proof>, root: nat, changes: seq<Mutation>,
      now: Option<Proof>)
  {
    && (now.Some? <==> Current(first, root) && EditsValid(f, tree, changes))
    && (now.Some? ==> now.value.sequence == Raised(tree, first.value.sequence, changes))
  }

  lemma NoneFollow(f: Format, first: seq<Option<Proof>>, previous: seq<nat>, live: seq<Option<Proof>>)
    requires |first| == |live| == 4 && |previous| == 5
    requires forall i :: 0 <= i < 4 ==>
               live[i] == if first[i].Some? && first[i].value.root != previous[i] then None else first[i]
    ensures forall t :: 0 <= t < 4 ==> Follows(f, t, first[t], previous[t], [], live[t])
  {
  }

  lemma FollowsRoots(f: Format, first: seq<Option<Proof>>, previous: seq<nat>, changes: seq<Mutation>,
      carried: seq<Option<Proof>>, live: seq<Option<Proof>>, roots: seq<nat>)
    requires |first| == |carried| == |live| == 4 && |previous| == |roots| == 5
    requires forall t :: 0 <= t < 4 ==> Follows(f, t, first[t], previous[t], changes, carried[t])
    requires forall t :: 0 <= t < 4 ==>
               live[t] == if carried[t].Some? then Some(carried[t].value.(root := roots[t])) else None
    ensures forall t :: 0 <= t < 4 ==> Follows(f, t, first[t], previous[t], changes, live[t])
  {
    hide EditsValid, Raised;
    forall t | 0 <= t < 4
      ensures Follows(f, t, first[t], previous[t], changes, live[t])
    {
      assert Follows(f, t, first[t], previous[t], changes, carried[t]);
    }
  }

  lemma FollowsSnoc(f: Format, first: seq<Option<Proof>>, previous: seq<nat>, changes: seq<Mutation>,
      before: seq<Option<Proof>>, live: seq<Option<Proof>>)
    requires |first| == |before| == |live| == 4 && |previous| == 5 && changes != []
    requires forall t :: 0 <= t < 4 ==> Follows(f, t, first[t], previous[t], changes[..|changes| - 1], before[t])
    requires forall t :: 0 <= t < 4 ==>
               live[t] == if t == changes[|changes| - 1].tree then Carried(f, before[t], changes[|changes| - 1])
                          else before[t]
    ensures forall t :: 0 <= t < 4 ==> Follows(f, t, first[t], previous[t], changes, live[t])
  {
    hide EntrySequence, ValidEdit, Carried, EditsValid;
    ValidSnoc(f, changes);
    forall t | 0 <= t < 4
      ensures Follows(f, t, first[t], previous[t], changes, live[t])
    {
      CarriedSome(f, before[t], changes[|changes| - 1]);
    }
  }

  lemma CarriedSome(f: Format, p: Option<Proof>, change: Mutation)
    ensures Carried(f, p, change).Some? <==> p.Some? && ValidEdit(f, change)
    ensures Carried(f, p, change).Some? ==>
              && EntrySequence(change.tree, change.key).Ok?
              && Carried(f, p, change).value.sequence
                 == if change.value.Some? && EntrySequence(change.tree, change.key).value > p.value.sequence
                    then EntrySequence(change.tree, change.key).value else p.value.sequence
  {
    hide EntrySequence, ValidValue;
  }

  // ---------------------------------------------------------------- the runtime

  class RuntimeValidation {
    var live: seq<Option<Proof>>
    var published: seq<Option<Proof>>
    var pending: Option<Pending>

    /** Sound for the owner's pages, live roots and checkpoint. */
    ghost predicate Valid(f: Format, pages: Pages, roots: seq<nat>, checkpoint: nat)
      reads this
    {
      && |roots| == 5
      && ProofsHold(f, pages, live) && ProofsHold(f, pages, published)
      && (pending.Some? ==> PendingExact(pending.value, Trees(pages, roots), checkpoint))
    }

    /** With the checkpoint live, nothing is above it. */
    constructor (checkpointIsLive: bool)
      ensures |live| == |published| == 4 && (forall i :: 0 <= i < 4 ==> live[i].None? && published[i].None?)
      ensures pending == if checkpointIsLive then Some(Pending(map[], 0)) else None
    {
      live, published := [None, None, None, None], [None, None, None, None];
      pending := if checkpointIsLive then Some(Pending(map[], 0)) else None;
    }

    /** Drop the proofs of roots that are not the ones being edited. */
    method DropStale(previous: seq<nat>)
      requires |live| == 4 && |previous| == 5
      modifies `live
      ensures |live| == 4
      ensures forall i :: 0 <= i < 4 ==>
                live[i] == if old(live)[i].Some? && old(live)[i].value.root != previous[i] then None else old(live)[i]
    {
      for i := 0 to 4
        invariant |live| == 4
        invariant forall j :: 0 <= j < i ==>
                    live[j] == if old(live)[j].Some? && old(live)[j].value.root != previous[j] then None
                        else old(live)[j]
        invariant forall j :: i <= j < 4 ==> live[j] == old(live)[j]
      {
        if live[i].Some? && live[i].value.root != previous[i] {
          live := live[i := None];
        }
      }
    }

    /** Carry the proof and the index across one edit. */
    method ObserveOne(f: Format, change: Mutation, checkpoint: nat)
      requires |live| == 4 && change.tree < 4
      requires pending.Some? && (change.tree, change.key) in pending.value.keys ==>
                 pending.value.bytes >= Weight((change.tree, change.key))
      modifies `live, `pending
      ensures |live| == 4
      ensures forall i :: 0 <= i < 4 && i != change.tree ==> live[i] == old(live)[i]
      ensures live[change.tree] == Carried(f, old(live)[change.tree], change)
      ensures pending == if old(pending).Some? then Track(old(pending).value, change, checkpoint) else None
    {
      hide EntrySequence, ValidValue;
      var sequence := EntrySequence(change.tree, change.key);
      if ValidEdit(f, change) {
        if live[change.tree].Some? && change.value.Some? && sequence.value > live[change.tree].value.sequence {
          live := live[change.tree := Some(live[change.tree].value.(sequence := sequence.value))];
        }
      } else {
        live := live[change.tree := None];
      }
      if pending.Some? {
        var key, weight := (change.tree, change.key), Weight((change.tree, change.key));
        var keys, bytes := pending.value.keys, pending.value.bytes;
        if key in keys {
          keys, bytes := keys - {key}, bytes - weight;
        }
        if sequence.Err? {
          pending := None;
        } else if change.value.Some? && sequence.value > checkpoint {
          if bytes + weight > PENDING_LIMIT {
            pending := None;
          } else {
            pending := Some(Pending(keys[key := sequence.value], bytes + weight));
          }
        } else {
          pending := Some(Pending(keys, bytes));
        }
      }
    }

    /**
     `observe`: after a batch of edits, whatever proof survives is true of the new root,
     and whatever index survives is exact.
     */
    method Observe(f: Format, pages: Pages, previous: seq<nat>, roots: seq<nat>, changes: seq<Mutation>,
        checkpoint: nat)
      requires Valid(f, pages, previous, checkpoint) && |roots| == 5
      requires forall i :: 0 <= i < |changes| ==> changes[i].tree < 5
      requires forall t :: 0 <= t < 4 ==> At(pages, roots[t]) == Edited(t, At(pages, previous[t]), changes)
      modifies this
      ensures Valid(f, pages, roots, checkpoint) && published == old(published)
      ensures forall t :: 0 <= t < 4 && live[t].Some? ==> live[t].value.root == roots[t]
      ensures forall t :: 0 <= t < 4 ==> Follows(f, t, old(live)[t], previous[t], changes, live[t])
      ensures pending == if old(pending).Some? then TrackAll(old(pending).value, changes, checkpoint) else None
    {
      ghost var first := live;
      hide ScanAccepts, PendingExact, EntrySequence, ValidValue, ValidEdit, Track, Carried, Follows, EditTrees,
        Edited, Raised, EditsValid;
      DropStale(previous);
      NoneFollow(f, first, previous, live);
      NothingEdited(pages, previous);
      for k := 0 to |changes|
        invariant |live| == 4 && published == old(published)
        invariant forall t :: 0 <= t < 4 && live[t].Some? ==>
                    ScanAccepts(f, t, Edited(t, At(pages, previous[t]), changes[..k]), live[t].value.sequence)
        invariant forall t :: 0 <= t < 4 ==> Follows(f, t, first[t], previous[t], changes[..k], live[t])
        invariant pending == if old(pending).Some? then TrackAll(old(pending).value, changes[..k], checkpoint) else None
        invariant pending.Some? ==> PendingExact(pending.value, EditedTrees(pages, previous, changes[..k]), checkpoint)
      {
        var change := changes[k];
        assert changes[..k + 1][..k] == changes[..k];
        ghost var before := live;
        if change.tree == CURSORS {
          SkipCursor(pages, previous, changes[..k + 1]);
          FollowsSnoc(f, first, previous, changes[..k + 1], before, live);
          continue;
        }
        if pending.Some? {
          TrackExact(pending.value, EditedTrees(pages, previous, changes[..k]), change, checkpoint);
        }
        EditStep(pages, previous, changes[..k + 1]);
        ghost var proof := live[change.tree];
        ObserveOne(f, change, checkpoint);
        CarriedHolds(f, change, Edited(change.tree, At(pages, previous[change.tree]), changes[..k]), proof);
        FollowsSnoc(f, first, previous, changes[..k + 1], before, live);
      }
      assert changes[..|changes|] == changes;
      AllEdited(pages, previous, roots, changes);
      ghost var carried := live;
      AdoptRoots(roots);
      FollowsRoots(f, first, previous, changes, carried, live, roots);
    }

    /** What is proved of the edited trees is proved of their new roots. */
    method AdoptRoots(roots: seq<nat>)
      requires |live| == 4 && |roots| == 5
      modifies `live
      ensures |live| == 4
      ensures forall t :: 0 <= t < 4 ==>
                live[t] == if old(live)[t].Some? then Some(old(live)[t].value.(root := roots[t])) else None
    {
      for i := 0 to 4
        invariant |live| == 4
        invariant forall t :: 0 <= t < i ==>
                    live[t] == if old(live)[t].Some? then Some(old(live)[t].value.(root := roots[t])) else None
        invariant forall t :: i <= t < 4 ==> live[t] == old(live)[t]
      {
        if live[i].Some? {
          live := live[i := Some(live[i].value.(root := roots[i]))];
        }
      }
    }

    /**
     `published`: adopt the proofs of the published roots that are live, and prune or
     restart the index for the new checkpoint.
     */
    method Publish(f: Format, pages: Pages, roots: seq<nat>, m: Manifest, checkpoint: nat, proofs: seq<Option<Proof>>)
      requires Valid(f, pages, roots, checkpoint) && |m.roots| == 5 && checkpoint <= m.checkpoint
      requires ProofsHold(f, pages, proofs)
      requires forall i :: 0 <= i < 4 ==> ScanAccepts(f, i, At(pages, m.roots[i]), m.checkpoint)
      modifies this
      ensures Valid(f, pages, roots, m.checkpoint) && published == proofs
      ensures forall i :: 0 <= i < 4 ==> live[i] == if roots[i] == m.roots[i] then proofs[i] else old(live)[i]
      ensures pending.Some? <==> old(pending).Some? || roots[..4] == m.roots[..4]
    {
      hide ScanAccepts, PendingExact, EntrySequence, ValidValue;
      published := proofs;
      for i := 0 to 4
        invariant ProofsHold(f, pages, live) && published == proofs && pending == old(pending)
        invariant forall j :: 0 <= j < i ==> live[j] == if roots[j] == m.roots[j] then proofs[j] else old(live)[j]
        invariant forall j :: i <= j < 4 ==> live[j] == old(live)[j]
      {
        if roots[i] == m.roots[i] {
          live := live[i := proofs[i]];
        }
      }
      if pending.Some? {
        PruneExact(pending.value, Trees(pages, roots), checkpoint, m.checkpoint);
        var kept := map key | key in pending.value.keys && pending.value.keys[key] > m.checkpoint ::
          pending.value.keys[key];
        var bytes := TotalBytes(kept);
        pending := Some(Pending(kept, bytes));
      } else if roots[..4] == m.roots[..4] {
        NothingAbove(f, pages, roots, m);
        pending := Some(Pending(map[], 0));
      }
    }
  }

  // ---------------------------------------------------------------- an owner's life

  /** What an owner does with its trees: edit them, or ask to publish a checkpoint. */
  datatype Event = Edits(changes: seq<Mutation>, roots: seq<nat>) | Publication(manifest: Manifest)

  /** The live roots after the first `n` events. */
  function RootsAfter(roots: seq<nat>, events: seq<Event>, n: nat): seq<nat>
    requires n <= |events|
  {
    if n == 0 then roots
    else match events[n - 1] case Edits(_, next) => next case Publication(_) => RootsAfter(roots, events, n - 1)
  }

  /** The checkpoint after them, had every publication been decided by a full scan. */
  ghost function CheckpointAfter(f: Format, pages: Pages, checkpoint: nat, events: seq<Event>, n: nat): nat
    requires n <= |events| && forall i :: 0 <= i < |events| && events[i].Publication? ==>
             |events[i].manifest.roots| == 5
  {
    if n == 0 then checkpoint
    else
      var before := CheckpointAfter(f, pages, checkpoint, events, n - 1);
      match events[n - 1]
      case Edits(_, _) => before
      case Publication(m) => if before <= m.checkpoint && Accepts(f, pages, m) then m.checkpoint else before
  }

  /** Edits lead from the live trees to the trees of their new roots; a root fixes its contents for good. */
  ghost predicate EventOk(pages: Pages, roots: seq<nat>, events: seq<Event>, i: nat)
    requires i < |events|
  {
    match events[i]
    case Publication(m) => |m.roots| == 5
    case Edits(changes, next) =>
      var previous := RootsAfter(roots, events, i);
      && |previous| == |next| == 5 && (forall k :: 0 <= k < |changes| ==> changes[k].tree < 5)
      && forall t :: 0 <= t < 4 ==> At(pages, next[t]) == Edited(t, At(pages, previous[t]), changes)
  }

  lemma PublicationRoots(pages: Pages, roots: seq<nat>, events: seq<Event>)
    requires forall i :: 0 <= i < |events| ==> EventOk(pages, roots, events, i)
    ensures forall i :: 0 <= i < |events| && events[i].Publication? ==> |events[i].manifest.roots| == 5
  {
    forall i | 0 <= i < |events| && events[i].Publication?
      ensures |events[i].manifest.roots| == 5
    {
      assert EventOk(pages, roots, events, i);
    }
  }

  /** Just after the opening scan accepted the checkpoint, having no proofs is sound. */
  lemma OpenedExact(f: Format, pages: Pages, roots: seq<nat>, m: Manifest)
    requires |roots| == |m.roots| == 5 && Accepts(f, pages, m) && roots[..4] == m.roots[..4]
    ensures PendingExact(Pending(map[], 0), Trees(pages, roots), m.checkpoint)
  {
    NothingAbove(f, pages, roots, m);
  }

  /**
   Over any sequence of edits and publications an owner that reuses its proofs decides each
   publication exactly as one that scans everything each time.
   */
  method Serve(f: Format, pages: Pages, roots: seq<nat>, first: Manifest, events: seq<Event>)
    returns (owner: RuntimeValidation, accepted: seq<bool>)
    requires |roots| == |first.roots| == 5 && Accepts(f, pages, first)
    requires forall i :: 0 <= i < |events| ==> EventOk(pages, roots, events, i)
    ensures forall i :: 0 <= i < |events| && events[i].Publication? ==> |events[i].manifest.roots| == 5
    ensures |accepted| == |events|
    ensures forall i :: 0 <= i < |events| && events[i].Publication? ==>
              (accepted[i] <==> CheckpointAfter(f, pages, first.checkpoint, events, i) <= events[i].manifest.checkpoint
                                && Accepts(f, pages, events[i].manifest))
    ensures owner.Valid(f, pages, RootsAfter(roots, events, |events|),
                        CheckpointAfter(f, pages, first.checkpoint, events, |events|))
  {
    hide ScanAccepts, CursorsAccepted, PendingExact, EntrySequence, ValidValue, Edited;
    PublicationRoots(pages, roots, events);
    accepted := [];
    owner := new RuntimeValidation(roots[..4] == first.roots[..4]);
    if roots[..4] == first.roots[..4] {
      OpenedExact(f, pages, roots, first);
    }
    var live, checkpoint := roots, first.checkpoint;
    for i := 0 to |events|
      invariant |accepted| == i && fresh(owner)
      invariant live == RootsAfter(roots, events, i)
                && checkpoint == CheckpointAfter(f, pages, first.checkpoint, events, i)
      invariant owner.Valid(f, pages, live, checkpoint)
      invariant forall j :: 0 <= j < i && events[j].Publication? ==>
                  (accepted[j] <==>
                        CheckpointAfter(f, pages, first.checkpoint, events, j) <= events[j].manifest.checkpoint
                                    && Accepts(f, pages, events[j].manifest))
    {
      assert EventOk(pages, roots, events, i);
      match events[i] {
        case Edits(changes, next) =>
          owner.Observe(f, pages, live, next, changes, checkpoint);
          live, accepted := next, accepted + [true];
        case Publication(m) =>
          var proofs := Validate(f, pages, m, owner.live);
          if proofs.Ok? && checkpoint <= m.checkpoint {
            owner.Publish(f, pages, live, m, checkpoint, proofs.value);
            checkpoint, accepted := m.checkpoint, accepted + [true];
          } else {
            accepted := accepted + [false];
          }
      }
    }
  }

  /** The four system trees of a root set. */
  ghost function Trees(pages: Pages, roots: seq<nat>): (r: seq<Contents>)
    requires |roots| == 5
    ensures |r| == 4
  {
    [At(pages, roots[0]), At(pages, roots[1]), At(pages, roots[2]), At(pages, roots[3])]
  }

  ghost function EditedTrees(pages: Pages, previous: seq<nat>, changes: seq<Mutation>): (r: seq<Contents>)
    requires |previous| == 5
    ensures |r| == 4
  {
    [Edited(0, At(pages, previous[0]), changes), Edited(1, At(pages, previous[1]), changes),
     Edited(2, At(pages, previous[2]), changes), Edited(3, At(pages, previous[3]), changes)]
  }

  /** The proof after one edit of its tree. */
  function Carried(f: Format, p: Option<Proof>, change: Mutation): Option<Proof> {
    if !ValidEdit(f, change) || p.None? then None
    else
      var sequence := EntrySequence(change.tree, change.key).value;
      if change.value.Some? && sequence > p.value.sequence then Some(p.value.(sequence := sequence)) else p
  }

  lemma CarriedHolds(f: Format, change: Mutation, contents: Contents, p: Option<Proof>)
    requires p.Some? ==> ScanAccepts(f, change.tree, contents, p.value.sequence)
    ensures Carried(f, p, change).Some? ==>
              ScanAccepts(f, change.tree, Edit(contents, change), Carried(f, p, change).value.sequence)
  {
    hide ScanAccepts, EntrySequence, ValidValue;
    if Carried(f, p, change).Some? {
      EditAccepted(f, change.tree, contents, change, p.value.sequence, Carried(f, p, change).value.sequence);
    }
  }

  lemma EditStep(pages: Pages, previous: seq<nat>, changes: seq<Mutation>)
    requires |previous| == 5 && changes != [] && changes[|changes| - 1].tree < 4
    ensures var front, last := changes[..|changes| - 1], changes[|changes| - 1];
            && EditedTrees(pages, previous, changes) == EditTrees(EditedTrees(pages, previous, front), last)
            && (forall t :: 0 <= t < 4 ==>
                  Edited(t, At(pages, previous[t]), changes)
                  == if t == last.tree then Edit(Edited(t, At(pages, previous[t]), front), last)
                     else Edited(t, At(pages, previous[t]), front))
  {
  }

  lemma SkipCursor(pages: Pages, previous: seq<nat>, changes: seq<Mutation>)
    requires |previous| == 5 && changes != [] && changes[|changes| - 1].tree == CURSORS
    ensures EditedTrees(pages, previous, changes) == EditedTrees(pages, previous, changes[..|changes| - 1])
    ensures forall t :: 0 <= t < 4 ==>
              Edited(t, At(pages, previous[t]), changes) == Edited(t, At(pages, previous[t]), changes[..|changes| - 1])
  {
  }

  lemma AllEdited(pages: Pages, previous: seq<nat>, roots: seq<nat>, changes: seq<Mutation>)
    requires |previous| == |roots| == 5
    requires forall t :: 0 <= t < 4 ==> At(pages, roots[t]) == Edited(t, At(pages, previous[t]), changes)
    ensures EditedTrees(pages, previous, changes) == Trees(pages, roots)
  {
    hide Edited;
  }

  /** Keeping the keys above a higher checkpoint keeps the index exact. */
  lemma PruneExact(p: Pending, trees: seq<Contents>, checkpoint: nat, higher: nat)
    requires |trees| == 4 && PendingExact(p, trees, checkpoint) && checkpoint <= higher
    ensures var kept := map key | key in p.keys && p.keys[key] > higher :: p.keys[key];
            PendingExact(Pending(kept, Total(kept.Keys)), trees, higher)
  {
    hide EntrySequence;
    var kept := map key | key in p.keys && p.keys[key] > higher :: p.keys[key];
    forall key: Key
      ensures key in kept <==> Above(trees, higher, key)
    {
      assert key in p.keys <==> Above(trees, checkpoint, key);
    }
    TotalSubset(kept.Keys, p.keys.Keys);
  }

  lemma {:induction false} TotalSubset(small: set<Key>, large: set<Key>)
    requires small <= large
    ensures Total(small) <= Total(large)
    decreases large
  {
    if key :| key in large {
      TotalWithout(large, key);
      if key in small {
        TotalWithout(small, key);
        TotalSubset(small - {key}, large - {key});
      } else {
        TotalSubset(small, large - {key});
      }
    }
  }

  /** A published checkpoint that is live leaves nothing above it. */
  lemma NothingAbove(f: Format, pages: Pages, roots: seq<nat>, m: Manifest)
    requires |roots| == |m.roots| == 5 && roots[..4] == m.roots[..4]
    requires forall i :: 0 <= i < 4 ==> ScanAccepts(f, i, At(pages, m.roots[i]), m.checkpoint)
    ensures PendingExact(Pending(map[], 0), Trees(pages, roots), m.checkpoint)
  {
    hide EntrySequence, ValidValue;
    forall key: Key
      ensures !Above(Trees(pages, roots), m.checkpoint, key)
    {
      if key.0 < 4 {
        assert roots[key.0] == roots[..4][key.0] == m.roots[..4][key.0] == m.roots[key.0];
        assert Trees(pages, roots)[key.0] == At(pages, m.roots[key.0]);
        if key.1 in At(pages, m.roots[key.0]) {
          assert EntryAccepted(f, key.0, key.1, At(pages, m.roots[key.0])[key.1], m.checkpoint);
        }
      }
    }
  }

  /** Sum the weights of an index's keys. */
  method TotalBytes(keys: map<Key, nat>) returns (total: nat)
    ensures total == Total(keys.Keys)
  {
    var rest := keys.Keys;
    total := 0;
    while rest != {}
      invariant rest <= keys.Keys && total + Total(rest) == Total(keys.Keys)
      decreases |rest|
    {
      var key :| key in rest;
      TotalWithout(rest, key);
      total := total + Weight(key);
      rest := rest - {key};
    }
  }

  // ---------------------------------------------------------------- preparing a checkpoint

  /** The entries at or below a sequence: what the full scan of `prepare_checkpoint` leaves. */
  ghost function CutAt(tree: nat, contents: Contents, sequence: nat): Contents {
    map key | key in contents && !(EntrySequence(tree, key).Ok? && EntrySequence(tree, key).value > sequence) ::
          contents[key]
  }

  /** What deleting the indexed keys above the sequence leaves. */
  ghost function WithoutPending(tree: nat, contents: Contents, p: Pending, sequence: nat): Contents {
    map key | key in contents && !((tree, key) in p.keys && p.keys[(tree, key)] > sequence) :: contents[key]
  }

  /**
   The indexed checkpoint is the scanned one: deleting only what the index lists leaves
   exactly the entries at or below the sequence, and the reduced proofs are true of it.
   */
  lemma FastCheckpoint(f: Format, trees: seq<Contents>, p: Pending, checkpoint: nat, sequence: nat, tree: nat,
      limit: nat)
    requires |trees| == 4 && tree < 4 && PendingExact(p, trees, checkpoint) && sequence >= checkpoint
    requires ScanAccepts(f, tree, trees[tree], limit)
    ensures WithoutPending(tree, trees[tree], p, sequence) == CutAt(tree, trees[tree], sequence)
    ensures ScanAccepts(f, tree, CutAt(tree, trees[tree], sequence), if limit < sequence then limit else sequence)
  {
    hide EntrySequence, ValidValue, Total;
    var contents := trees[tree];
    forall key | key in contents
      ensures ((tree, key) in p.keys && p.keys[(tree, key)] > sequence)
          <==> (EntrySequence(tree, key).Ok? && EntrySequence(tree, key).value > sequence)
      ensures EntryAccepted(f, tree, key, contents[key], limit)
    {
      assert (tree, key) in p.keys <==> Above(trees, checkpoint, (tree, key));
    }
    if tree == POLICY {
      FirstPolicySequence();
    }
  }

  lemma FirstPolicySequence()
    ensures EntrySequence(POLICY, FIRST_POLICY) == Ok(0)
  {
    BigEndianRoundTrip(0, 8);
    Base8();
    assert BigEndian(0, 8) == FIRST_POLICY;
  }
}
