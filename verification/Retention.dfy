/**
 Claims on history: snapshots and durable cursors hold back the floors below which
 maintenance may collect. No run of captures, revocations, checkouts, acknowledgements,
 releases, commits and maintenance ever collects what a claim protects.
 */
module Retention {
  import opened Common
  import opened Bytes
  import opened Manifests
  import Wal

  datatype Kind = Resolved | Logical | Replica

  datatype Cursor = Cursor(kind: Kind, baseline: nat, name: ByteString)

  /** A snapshot's claim: held, revoked but still referenced, or dropped by its last owner. */
  datatype Status = Held | Revoked | Dropped

  /** `id` stands for the identity of the shared claim: no two captures have the same. */
  datatype Claim = Claim(id: nat, sequence: nat, status: Status)

  /**
   `captures` counts the snapshots ever taken; `digests` are those the log fixes: the genesis's,
   then one for each record up to the durable end.
   */
  datatype State = State(
    manifest: Manifest,
    frontier: nat,
    claims: seq<Claim>,
    captures: nat,
    cursors: map<nat, Cursor>,
    digests: seq<ByteString>)

  datatype Floors = Floors(history: nat, log: nat)

  // ---------------------------------------------------------------- snapshots

  function Retain(claims: seq<Claim>, dropped: bool): seq<Claim> {
    if claims == [] then []
    else (if Keeps(claims[0], dropped) then [claims[0]] else []) + Retain(claims[1..], dropped)
  }

  /** Capture forgets dropped claims; floor selection forgets revoked ones too. */
  predicate Keeps(c: Claim, dropped: bool) {
    if dropped then !c.status.Dropped? else c.status.Held?
  }

  function Capture(s: State): State {
    s.(claims := Retain(s.claims, true) + [Claim(s.captures, s.frontier, Held)], captures := s.captures + 1)
  }

  /** `revoke_claim`, or the last owner going away. */
  function EndClaim(s: State, i: nat, status: Status): State
    requires i < |s.claims| && !status.Held?
  {
    s.(claims := s.claims[i := s.claims[i].(status := status)])
  }

  // ---------------------------------------------------------------- cursors

  /** What reading a stored cursor checks against the manifest. */
  function Decode(m: Manifest, id: nat, c: Cursor): Result<Cursor> {
    if |c.name| > 255 || 0 in c.name || id == 0 || id >= m.nextCursor || c.baseline < m.historyFloor
       || c.baseline > m.durable || (!c.kind.Resolved? && m.logFloor > c.baseline + 1)
    then Err(Corrupt)
    else Ok(c)
  }

  function Lookup(s: State, id: nat, kind: Kind): Result<Option<Cursor>> {
    if id == 0 || id >= s.manifest.nextCursor then Err(InvalidToken)
    else if id !in s.cursors then Ok(None)
    else
      var c :- Decode(s.manifest, id, s.cursors[id]);
      if c.kind != kind then Err(InvalidToken) else Ok(Some(c))
  }

  /** A publication raises the generation; the last one is never used. */
  function Published(m: Manifest, nextCursor: nat): Result<Manifest> {
    if !ValidId(m.generation + 1) then Err(Exhausted)
    else Ok(m.(generation := m.generation + 1, nextCursor := nextCursor))
  }

  /** `available`, the outcome and history scans apart. */
  function Available(s: State, baseline: nat, kind: Kind): Result<()> {
    if baseline < s.manifest.historyFloor || baseline > s.frontier then Err(HistoryUnavailable)
    else if !kind.Resolved? && s.manifest.logFloor > baseline + 1 then Err(HistoryUnavailable)
    else Ok(())
  }

  function Checkout(s: State, baseline: nat, kind: Kind, name: ByteString): Result<State> {
    if |name| > 255 || 0 in name then Err(InvalidInput)
    else if s.manifest.nextCursor >= U64_MAX then Err(Exhausted)
    else
      var ok :- Available(s, baseline, kind);
      var m :- Published(s.manifest, s.manifest.nextCursor + 1);
      Ok(s.(manifest := m, cursors := s.cursors[s.manifest.nextCursor := Cursor(kind, baseline, name)]))
  }

  function Ack(s: State, id: nat, kind: Kind, watermark: nat): Result<State> {
    var found :- Lookup(s, id, kind);
    if found.None? then Err(CursorReleased)
    else if watermark < found.value.baseline || watermark > s.frontier then Err(InvalidInput)
    else if watermark == found.value.baseline then Ok(s)
    else
      var m :- Published(s.manifest, s.manifest.nextCursor);
      Ok(s.(manifest := m, cursors := s.cursors[id := found.value.(baseline := watermark)]))
  }

  function Release(s: State, id: nat, kind: Kind): Result<State> {
    var found :- Lookup(s, id, kind);
    if found.None? then Ok(s)
    else
      var m :- Published(s.manifest, s.manifest.nextCursor);
      Ok(s.(manifest := m, cursors := s.cursors - {id}))
  }

  /** Resume a cursor by ID; the position may be ahead of its baseline. */
  function Rebind(s: State, id: nat, watermark: nat): Result<Cursor> {
    if id == 0 || id >= s.manifest.nextCursor then Err(InvalidToken)
    else if id !in s.cursors then Err(CursorReleased)
    else
      var c :- Decode(s.manifest, id, s.cursors[id]);
      if watermark < c.baseline || watermark > s.frontier then Err(HistoryUnavailable)
      else
        var ok :- Available(s, watermark, c.kind);
        Ok(c)
  }

  // ---------------------------------------------------------------- floors

  ghost predicate IsFloor(s: State, f: Floors) {
    && f.history <= s.frontier
    && (forall i :: 0 <= i < |s.claims| && s.claims[i].status.Held? ==> f.history <= s.claims[i].sequence)
    && (forall id :: id in s.cursors ==> f.history <= s.cursors[id].baseline)
    && f.log <= s.manifest.checkpoint + 1
    && (forall id :: id in s.cursors && !s.cursors[id].kind.Resolved? ==> f.log <= s.cursors[id].baseline + 1)
  }

  /** The floors are the greatest the claims allow. */
  ghost predicate GreatestFloors(s: State, f: Floors) {
    IsFloor(s, f) && forall g :: IsFloor(s, g) ==> g.history <= f.history && g.log <= f.log
  }

  // ---------------------------------------------------------------- maintenance

  function Drop(segments: seq<Descriptor>, log: nat): seq<Descriptor> {
    if segments == [] then []
    else (if segments[0].last >= log then [segments[0]] else []) + Drop(segments[1..], log)
  }

  /** `maintenance::prepare` as it changes the manifest. */
  function Prepare(m: Manifest, f: Floors, collect: bool): Result<Manifest> {
    if m.checkpoint != m.durable || f.history > m.checkpoint || f.log > m.checkpoint + 1
       || f.history < m.historyFloor || f.log < m.logFloor then Err(InvalidInput)
    else if !collect then Ok(m)
    else
      var segments := Drop(m.segments, f.log);
      Ok(m.(historyFloor := f.history, segments := segments,
            logFloor := if segments == [] then m.durable + 1 else segments[0].first))
  }

  /** Publish the drained frontier as the checkpoint. */
  function Drained(s: State): Result<State> {
    if s.frontier != s.manifest.durable then Err(InvalidInput)
    else
      var m :- Published(s.manifest, s.manifest.nextCursor);
      Ok(s.(manifest := m.(checkpoint := m.durable, checkpointDigest := m.durableDigest)))
  }

  // ---------------------------------------------------------------- commits

  /** A commit group appends its records' digests to the log; the frontier follows when they are resolved. */
  function Commit(s: State, digests: seq<ByteString>, bytes: nat, rotate: bool, id: nat): Result<State> {
    var count := |digests|;
    if !GroupSize(count, bytes) || s.manifest.durable + count >= U64_MAX then Err(InvalidInput)
    else if (rotate || s.manifest.segments == [])
            && (!ValidId(id) || id < s.manifest.nextSegment || |s.manifest.segments| >= MAX_SEGMENTS) then
                Err(Exhausted)
    else
      Ok(s.(manifest := Extended(s.manifest, count, Wal.GroupBytes(bytes), digests[count - 1], rotate, id),
            digests := s.digests + digests))
  }

  function Show(s: State, n: nat): Result<State> {
    if s.frontier <= n <= s.manifest.durable then Ok(s.(frontier := n)) else Err(InvalidInput)
  }

  /** Publish the visible prefix up to `n` as the checkpoint, with the digest of its last record. */
  function PublishAt(s: State, n: nat): Result<State> {
    if n < s.manifest.checkpoint || n > s.frontier || n >= |s.digests| then Err(InvalidInput)
    else
      var m :- Published(s.manifest, s.manifest.nextCursor);
      Ok(s.(manifest := m.(checkpoint := n, checkpointDigest := s.digests[n])))
  }

  // ---------------------------------------------------------------- invariant

  ghost predicate AnchoredAt(m: Manifest, digests: seq<ByteString>, j: nat)
    requires j < |m.segments|
  {
    var d := m.segments[j];
    && 0 < d.first <= d.last < |digests|
    && d.predecessor == digests[d.first - 1] && d.lastDigest == digests[d.last]
  }

  /** Every digest in the manifest is the one the log fixes for its sequence. */
  ghost predicate Anchored(m: Manifest, digests: seq<ByteString>) {
    && |digests| == m.durable + 1 && m.checkpoint <= m.durable
    && digests[0] == m.genesis && digests[m.checkpoint] == m.checkpointDigest && digests[m.durable] == m.durableDigest
    && forall j :: 0 <= j < |m.segments| ==> AnchoredAt(m, digests, j)
  }

  ghost predicate CursorOk(s: State, id: nat, c: Cursor) {
    && 0 < id < s.manifest.nextCursor
    && |c.name| <= 255 && 0 !in c.name
    && s.manifest.historyFloor <= c.baseline <= s.frontier
    && (!c.kind.Resolved? ==> s.manifest.logFloor <= c.baseline + 1)
  }

  /** Claims stand in the order of their capture. */
  ghost predicate Named(claims: seq<Claim>, captures: nat) {
    && (forall i :: 0 <= i < |claims| ==> claims[i].id < captures)
    && (forall i, j :: 0 <= i < j < |claims| ==> claims[i].id < claims[j].id)
  }

  /** Every claim lies between the history floor and the frontier, and logical ones have their log. */
  ghost predicate Protected(s: State) {
    && ValidManifest(s.manifest) && Anchored(s.manifest, s.digests)
    && s.manifest.checkpoint <= s.frontier <= s.manifest.durable
    && (forall i :: 0 <= i < |s.claims| && s.claims[i].status.Held? ==>
          s.manifest.historyFloor <= s.claims[i].sequence <= s.frontier)
    && Named(s.claims, s.captures)
    && (forall id :: id in s.cursors ==> CursorOk(s, id, s.cursors[id]))
  }

  /** Under the invariant a stored cursor always reads back. */
  lemma CursorsReadable(s: State, id: nat)
    requires Protected(s) && id in s.cursors
    ensures Decode(s.manifest, id, s.cursors[id]) == Ok(s.cursors[id])
    ensures Lookup(s, id, s.cursors[id].kind) == Ok(Some(s.cursors[id]))
  {
    hide ValidManifest;
  }

  /** A cursor can be resumed at any position between its baseline and the frontier. */
  lemma CursorsResume(s: State, id: nat, watermark: nat)
    requires Protected(s) && id in s.cursors && s.cursors[id].baseline <= watermark <= s.frontier
    ensures Rebind(s, id, watermark) == Ok(s.cursors[id])
  {
    hide ValidManifest;
    CursorsReadable(s, id);
  }

  // ---------------------------------------------------------------- when each call succeeds

  /** The last generation and the last cursor ID are never used. */
  predicate CanPublish(s: State) {
    s.manifest.generation + 1 < 0xFFFF_FFFF_FFFF_FFFF
  }

  /** A checkout succeeds exactly when the name is legal, an ID is left and the history it asks for is there. */
  lemma CheckoutExact(s: State, baseline: nat, kind: Kind, name: ByteString)
    ensures Checkout(s, baseline, kind, name).Ok? <==>
            && |name| <= 255 && 0 !in name
            && s.manifest.nextCursor < 0xFFFF_FFFF_FFFF_FFFF && CanPublish(s)
            && s.manifest.historyFloor <= baseline <= s.frontier
            && (kind.Resolved? || s.manifest.logFloor <= baseline + 1)
    ensures Checkout(s, baseline, kind, name).Ok? ==>
              var next, id := Checkout(s, baseline, kind, name).value, s.manifest.nextCursor;
              && id in next.cursors && next.cursors[id] == Cursor(kind, baseline, name)
              && (forall k :: k != id ==> (k in next.cursors <==> k in s.cursors))
              && (forall k :: k in s.cursors && k != id ==> next.cursors[k] == s.cursors[k])
              && next.manifest == s.manifest.(generation := s.manifest.generation + 1, nextCursor := id + 1)
              && next.claims == s.claims && next.frontier == s.frontier && next.digests == s.digests
  {
  }

  /** An acknowledgement of a live cursor succeeds exactly between its baseline and the frontier. */
  lemma AckExact(s: State, id: nat, watermark: nat)
    requires Protected(s) && id in s.cursors
    ensures var r, c := Ack(s, id, s.cursors[id].kind, watermark), s.cursors[id];
            && (r.Ok? <==>
                  c.baseline <= watermark <= s.frontier && (watermark == c.baseline || CanPublish(s)))
            && (r.Ok? ==>
                  && r.value.cursors == s.cursors[id := c.(baseline := watermark)]
                  && r.value.claims == s.claims && r.value.frontier == s.frontier && r.value.digests == s.digests)
            && (r.Err? ==> r.error == if c.baseline <= watermark <= s.frontier then Exhausted else InvalidInput)
  {
    hide ValidManifest, Anchored;
    CursorsReadable(s, id);
    assert s.cursors == s.cursors[id := s.cursors[id]];
  }

  /** A release takes away exactly the cursor it names; a second one changes nothing. */
  lemma ReleaseExact(s: State, id: nat, kind: Kind)
    requires Protected(s) && 0 < id < s.manifest.nextCursor
    ensures var r := Release(s, id, kind);
            && (r.Ok? <==> id !in s.cursors || (s.cursors[id].kind == kind && CanPublish(s)))
            && (r.Ok? ==>
                  && r.value.cursors == s.cursors - {id}
                  && r.value.claims == s.claims && r.value.frontier == s.frontier && r.value.digests == s.digests)
            && (r.Err? ==> r.error == if s.cursors[id].kind != kind then InvalidToken else Exhausted)
  {
    hide ValidManifest, Anchored;
    if id in s.cursors {
      CursorsReadable(s, id);
    } else {
      assert s.cursors - {id} == s.cursors;
    }
  }

  /** A cursor can be taken up again exactly while it exists, from its baseline to the frontier. */
  lemma RebindExact(s: State, id: nat, watermark: nat)
    requires Protected(s)
    ensures var r := Rebind(s, id, watermark);
            && (r.Ok? <==> id in s.cursors && s.cursors[id].baseline <= watermark <= s.frontier)
            && (r.Ok? ==> r.value == s.cursors[id])
            && (r.Err? ==>
                  r.error == if id == 0 || id >= s.manifest.nextCursor then InvalidToken
                             else if id !in s.cursors then CursorReleased
                             else HistoryUnavailable)
  {
    hide ValidManifest, Anchored;
    if id in s.cursors {
      CursorsReadable(s, id);
      assert CursorOk(s, id, s.cursors[id]);
      if s.cursors[id].baseline <= watermark <= s.frontier {
        CursorsResume(s, id, watermark);
      }
    }
  }

  // ---------------------------------------------------------------- what each step keeps

  lemma {:induction false} RetainMembers(claims: seq<Claim>, dropped: bool, c: Claim)
    ensures c in Retain(claims, dropped) <==> c in claims && Keeps(c, dropped)
  {
    if claims != [] {
      RetainMembers(claims[1..], dropped, c);
    }
  }

  lemma NamedCons(c: Claim, rest: seq<Claim>, captures: nat)
    requires Named(rest, captures) && c.id < captures && forall j :: 0 <= j < |rest| ==> c.id < rest[j].id
    ensures Named([c] + rest, captures) && [] + rest == rest
  {
    var all := [c] + rest;
    forall i | 0 <= i < |all|
      ensures all[i].id < captures
    {
      if i > 0 {
        assert all[i] == rest[i - 1];
      }
    }
    forall i, j | 0 <= i < j < |all|
      ensures all[i].id < all[j].id
    {
      assert all[j] == rest[j - 1];
      if i > 0 {
        assert all[i] == rest[i - 1];
      }
    }
  }

  /** Forgetting claims keeps the rest in order. */
  lemma {:induction false} RetainNamed(claims: seq<Claim>, dropped: bool, captures: nat)
    requires Named(claims, captures)
    ensures Named(Retain(claims, dropped), captures)
  {
    hide Keeps;
    if claims != [] {
      RetainNamed(claims[1..], dropped, captures);
      var rest := Retain(claims[1..], dropped);
      forall j | 0 <= j < |rest|
        ensures claims[0].id < rest[j].id
      {
        assert rest[j] in rest;
        RetainMembers(claims[1..], dropped, rest[j]);
        var i :| 0 <= i < |claims[1..]| && claims[1..][i] == rest[j];
        assert claims[i + 1] == rest[j];
      }
      NamedCons(claims[0], rest, captures);
    }
  }

  /** The manifest of a database just created, with the policy root on page one. */
  function Initial(database: ByteString, namespace: ByteString, genesis: ByteString): Manifest {
    Manifest(database, genesis, namespace, 1, 1, 2, 0, genesis, 0, genesis, 0, 1, 1, 1, 2, [0, 0, 1, 0, 0], [])
  }

  /** A new database is protected, so runs have somewhere to start. */
  lemma CreatedProtected(database: ByteString, namespace: ByteString, genesis: ByteString)
    requires database != Wal.Zeros(16) && namespace != Wal.Zeros(16)
    ensures Protected(State(Initial(database, namespace, genesis), 0, [], 0, map[], [genesis]))
  {
    hide Wal.Zeros;
  }

  lemma CaptureKeeps(s: State)
    requires Protected(s)
    ensures Protected(Capture(s))
    ensures forall c :: c in Capture(s).claims <==>
              c == Claim(s.captures, s.frontier, Held) || (c in s.claims && !c.status.Dropped?)
  {
    hide ValidManifest, Anchored;
    var next := Capture(s);
    FrontierAboveFloor(s);
    forall c
      ensures c in Retain(s.claims, true) <==> c in s.claims && !c.status.Dropped?
    {
      RetainMembers(s.claims, true, c);
    }
    RetainNamed(s.claims, true, s.captures);
    forall i | 0 <= i < |next.claims| && next.claims[i].status.Held?
      ensures s.manifest.historyFloor <= next.claims[i].sequence <= s.frontier
    {
      if i < |next.claims| - 1 {
        assert next.claims[i] in Retain(s.claims, true);
        RetainMembers(s.claims, true, next.claims[i]);
      }
    }
    forall id | id in next.cursors
      ensures CursorOk(next, id, next.cursors[id])
    {
      assert CursorOk(s, id, s.cursors[id]);
    }
  }

  lemma FrontierAboveFloor(s: State)
    requires Protected(s)
    ensures s.manifest.historyFloor <= s.frontier
  {
  }

  lemma EndClaimKeeps(s: State, i: nat, status: Status)
    requires Protected(s) && i < |s.claims| && !status.Held?
    ensures Protected(EndClaim(s, i, status))
  {
    hide ValidManifest, Anchored;
    forall id | id in s.cursors
      ensures CursorOk(EndClaim(s, i, status), id, s.cursors[id])
    {
      assert CursorOk(s, id, s.cursors[id]);
    }
  }

  /** A publication that changes only cursor metadata keeps a valid manifest valid. */
  lemma PublishedValid(m: Manifest, nextCursor: nat)
    requires ValidManifest(m) && Published(m, nextCursor).Ok? && nextCursor >= m.nextCursor
    ensures ValidManifest(Published(m, nextCursor).value)
  {
    hide ValidDescriptor;
    var next := Published(m, nextCursor).value;
    forall j | 0 <= j < |next.segments|
      ensures Continues(next, j)
    {
      assert Continues(m, j);
    }
  }

  lemma CheckoutKeeps(s: State, baseline: nat, kind: Kind, name: ByteString)
    requires Protected(s) && Checkout(s, baseline, kind, name).Ok?
    ensures Protected(Checkout(s, baseline, kind, name).value)
  {
    hide ValidManifest, ValidHead, Anchored;
    var next := Checkout(s, baseline, kind, name).value;
    PublishedValid(s.manifest, s.manifest.nextCursor + 1);
    AnchoredLength(s.manifest, s.digests);
    AnchoredFrame(s.manifest, next.manifest, s.digests);
    NextCursorPositive(s.manifest);
    forall id | id in next.cursors
      ensures CursorOk(next, id, next.cursors[id])
    {
      if id != s.manifest.nextCursor {
        assert CursorOk(s, id, s.cursors[id]);
      }
    }
  }

  lemma NextCursorPositive(m: Manifest)
    requires ValidManifest(m)
    ensures m.nextCursor > 0
  {
  }

  lemma AckKeeps(s: State, id: nat, kind: Kind, watermark: nat)
    requires Protected(s) && Ack(s, id, kind, watermark).Ok?
    ensures Protected(Ack(s, id, kind, watermark).value)
  {
    hide ValidManifest, Anchored;
    var next := Ack(s, id, kind, watermark).value;
    if Published(s.manifest, s.manifest.nextCursor).Ok? {
      PublishedValid(s.manifest, s.manifest.nextCursor);
    }
    AnchoredLength(s.manifest, s.digests);
    AnchoredFrame(s.manifest, next.manifest, s.digests);
    forall k | k in next.cursors
      ensures CursorOk(next, k, next.cursors[k])
    {
      assert CursorOk(s, k, s.cursors[k]);
    }
  }

  lemma ReleaseKeeps(s: State, id: nat, kind: Kind)
    requires Protected(s) && Release(s, id, kind).Ok?
    ensures Protected(Release(s, id, kind).value)
  {
    hide ValidManifest, Anchored;
    var next := Release(s, id, kind).value;
    if Published(s.manifest, s.manifest.nextCursor).Ok? {
      PublishedValid(s.manifest, s.manifest.nextCursor);
    }
    AnchoredLength(s.manifest, s.digests);
    AnchoredFrame(s.manifest, next.manifest, s.digests);
    forall k | k in next.cursors
      ensures CursorOk(next, k, next.cursors[k])
    {
      assert CursorOk(s, k, s.cursors[k]);
    }
  }

  /** Digests stay anchored when neither the segments nor the ends of the manifest change. */
  lemma AnchoredFrame(m: Manifest, next: Manifest, digests: seq<ByteString>)
    requires Anchored(m, digests) && next.segments == m.segments && next.genesis == m.genesis
    requires next.durable == m.durable && next.durableDigest == m.durableDigest
    requires next.checkpoint <= next.durable && next.checkpointDigest == digests[next.checkpoint]
    ensures Anchored(next, digests)
  {
    forall j | 0 <= j < |next.segments|
      ensures AnchoredAt(next, digests, j)
    {
      assert AnchoredAt(m, digests, j);
    }
  }

  /** Moving the frontiers on leaves every claim where it was. */
  lemma AdvanceKeeps(s: State, next: State)
    requires Protected(s) && ValidManifest(next.manifest) && Anchored(next.manifest, next.digests)
    requires next.manifest.historyFloor == s.manifest.historyFloor && next.manifest.logFloor == s.manifest.logFloor
    requires next.manifest.nextCursor == s.manifest.nextCursor
    requires s.frontier <= next.frontier && next.manifest.checkpoint <= next.frontier <= next.manifest.durable
    requires next.claims == s.claims && next.captures == s.captures && next.cursors == s.cursors
    ensures Protected(next)
  {
    hide ValidManifest, Anchored;
    forall id | id in next.cursors
      ensures CursorOk(next, id, next.cursors[id])
    {
      assert CursorOk(s, id, s.cursors[id]);
    }
  }

  /** A committed group leaves a valid manifest, whatever it held: no guard is needed. */
  lemma CommitKeeps(s: State, digests: seq<ByteString>, bytes: nat, rotate: bool, id: nat)
    requires Protected(s) && Commit(s, digests, bytes, rotate, id).Ok?
    ensures Protected(Commit(s, digests, bytes, rotate, id).value)
  {
    hide ValidManifest, Wal.GroupBytes, Anchored;
    GroupCount(|digests|, bytes);
    var next := Commit(s, digests, bytes, rotate, id).value;
    ExtendedValid(s.manifest, |digests|, bytes, digests[|digests| - 1], rotate, id);
    ExtendedAnchored(s, digests, Wal.GroupBytes(bytes), rotate, id);
    AdvanceKeeps(s, next);
  }

  lemma ExtendedAnchored(s: State, digests: seq<ByteString>, bytes: nat, rotate: bool, id: nat)
    requires Anchored(s.manifest, s.digests) && digests != []
    ensures Anchored(Extended(s.manifest, |digests|, bytes, digests[|digests| - 1], rotate, id), s.digests + digests)
  {
    var m, all := s.manifest, s.digests + digests;
    var next := Extended(m, |digests|, bytes, digests[|digests| - 1], rotate, id);
    forall j | 0 <= j < |next.segments|
      ensures AnchoredAt(next, all, j)
    {
      if j < |m.segments| {
        assert AnchoredAt(m, s.digests, j);
      }
    }
  }

  lemma ShowKeeps(s: State, n: nat)
    requires Protected(s) && Show(s, n).Ok?
    ensures Protected(Show(s, n).value)
  {
    hide ValidManifest, Anchored;
    AdvanceKeeps(s, Show(s, n).value);
  }

  /** Any visible sequence can serve as the checkpoint: the log fixes a digest that agrees with every segment. */
  lemma PublishKeeps(s: State, n: nat)
    requires Protected(s) && PublishAt(s, n).Ok?
    ensures Protected(PublishAt(s, n).value)
  {
    hide ValidManifest, Anchored;
    var next := PublishAt(s, n).value;
    CheckpointValid(s.manifest, s.digests, n, next.manifest.generation);
    AnchoredLength(s.manifest, s.digests);
    AnchoredFrame(s.manifest, next.manifest, s.digests);
    AdvanceKeeps(s, next);
  }

  lemma AnchoredLength(m: Manifest, digests: seq<ByteString>)
    requires Anchored(m, digests)
    ensures |digests| == m.durable + 1 && m.checkpoint <= m.durable && digests[m.checkpoint] == m.checkpointDigest
    ensures digests[m.durable] == m.durableDigest
  {
  }

  lemma CheckpointValid(m: Manifest, digests: seq<ByteString>, n: nat, generation: nat)
    requires ValidManifest(m) && Anchored(m, digests) && m.checkpoint <= n <= m.durable && ValidId(generation)
    ensures ValidManifest(m.(generation := generation, checkpoint := n, checkpointDigest := digests[n]))
  {
    hide ValidDescriptor;
    var next := m.(generation := generation, checkpoint := n, checkpointDigest := digests[n]);
    forall j | 0 <= j < |next.segments|
      ensures Continues(next, j)
    {
      assert Continues(m, j) && AnchoredAt(m, digests, j);
    }
  }

  /** After a restart no snapshot is held, and the frontier is at least the checkpoint. */
  ghost predicate Restarts(s: State, next: State) {
    next == s.(claims := [], frontier := s.manifest.durable)
  }

  lemma RestartKeeps(s: State, next: State)
    requires Protected(s) && Restarts(s, next)
    ensures Protected(next)
  {
    hide ValidManifest, Anchored;
    assert s.manifest.checkpoint <= s.manifest.durable;
    forall id | id in next.cursors
      ensures CursorOk(next, id, next.cursors[id])
    {
      assert CursorOk(s, id, s.cursors[id]);
    }
  }

  // ---------------------------------------------------------------- dropping segments

  /** Whole segments below the log floor are a prefix, so what is kept is a suffix. */
  lemma {:induction false} DropIsSuffix(m: Manifest, from: nat, log: nat) returns (k: nat)
    requires ValidManifest(m) && from <= |m.segments|
    ensures from <= k <= |m.segments| && Drop(m.segments[from..], log) == m.segments[k..]
    ensures forall j :: from <= j < k ==> m.segments[j].last < log
    ensures k < |m.segments| ==> m.segments[k].last >= log
    decreases |m.segments| - from
  {
    hide ValidManifest;
    var rest := m.segments[from..];
    if rest == [] {
      k := from;
    } else if m.segments[from].last < log {
      assert rest[1..] == m.segments[from + 1..];
      k := DropIsSuffix(m, from + 1, log);
    } else {
      k := from;
      DropNothing(m, from, log);
    }
  }

  lemma {:induction false} DropNothing(m: Manifest, from: nat, log: nat)
    requires ValidManifest(m) && from <= |m.segments| && (from < |m.segments| ==> m.segments[from].last >= log)
    ensures Drop(m.segments[from..], log) == m.segments[from..]
    decreases |m.segments| - from
  {
    hide ValidManifest;
    var rest := m.segments[from..];
    if rest != [] {
      assert rest[1..] == m.segments[from + 1..];
      if from + 1 < |m.segments| {
        SegmentsAscend(m, from, from + 1);
        SegmentOrder(m, from + 1);
      }
      DropNothing(m, from + 1, log);
      assert rest == [rest[0]] + rest[1..];
    }
  }

  lemma SegmentOrder(m: Manifest, j: nat)
    requires ValidManifest(m) && j < |m.segments|
    ensures m.segments[j].first <= m.segments[j].last <= m.durable
    ensures j > 0 ==> m.segments[j].first == m.segments[j - 1].last + 1
    ensures j == 0 ==> m.segments[j].first == m.logFloor
  {
    hide PossibleLength;
    assert Continues(m, j);
    if j < |m.segments| - 1 {
      SegmentsAscend(m, j, |m.segments| - 1);
      assert Continues(m, |m.segments| - 1);
    }
  }

  /** The kept segments still partition the log from the new floor to the durable end. */
  lemma PreparedValid(m: Manifest, f: Floors, collect: bool)
    requires ValidManifest(m) && Prepare(m, f, collect).Ok?
    ensures var next := Prepare(m, f, collect).value;
            && ValidManifest(next)
            && next.historyFloor >= m.historyFloor && next.logFloor >= m.logFloor
            && next.historyFloor <= f.history && next.logFloor <= f.log
            && next.checkpoint == m.checkpoint && next.durable == m.durable && next.nextCursor == m.nextCursor
  {
    hide ValidDescriptor;
    if collect {
      var next := Prepare(m, f, collect).value;
      assert m.segments[0..] == m.segments;
      var k := DropIsSuffix(m, 0, f.log);
      KeptSegments(m, next, k, f);
    }
  }

  /**
   What maintenance does to the manifest: it accepts exactly floors between the old ones and the
   drained checkpoint, collects history up to the floor asked for, and drops exactly the segments
   that end below the log floor, so that the new floor is the start of the segment it lies in.
   */
  lemma PreparedExact(m: Manifest, f: Floors, collect: bool)
    requires ValidManifest(m)
    ensures Prepare(m, f, collect).Ok? <==>
            m.checkpoint == m.durable && m.historyFloor <= f.history <= m.checkpoint
            && m.logFloor <= f.log <= m.checkpoint + 1
    ensures Prepare(m, f, collect).Err? ==> Prepare(m, f, collect).error == InvalidInput
    ensures Prepare(m, f, collect).Ok? && !collect ==> Prepare(m, f, collect).value == m
    ensures Prepare(m, f, collect).Ok? && collect ==>
              var next := Prepare(m, f, collect).value;
              && next == m.(historyFloor := f.history, logFloor := next.logFloor, segments := next.segments)
              && |next.segments| <= |m.segments| && next.segments == m.segments[|m.segments| - |next.segments|..]
              && (forall d :: d in m.segments ==> (d in next.segments <==> d.last >= f.log))
              && if next.segments == [] then next.logFloor == m.durable + 1
                 else next.logFloor == next.segments[0].first <= f.log <= next.segments[0].last
  {
    hide ValidDescriptor;
    if Prepare(m, f, collect).Ok? && collect {
      var next := Prepare(m, f, collect).value;
      assert m.segments[0..] == m.segments;
      var k := DropIsSuffix(m, 0, f.log);
      KeptSegments(m, next, k, f);
      forall d | d in m.segments
        ensures d in next.segments <==> d.last >= f.log
      {
        DropMembers(m.segments, f.log, d);
      }
    }
  }

  lemma {:induction false} DropMembers(segments: seq<Descriptor>, log: nat, d: Descriptor)
    ensures d in Drop(segments, log) <==> d in segments && d.last >= log
  {
    if segments != [] {
      DropMembers(segments[1..], log, d);
    }
  }

  /** Nothing is kept without a claim: maintenance then collects up to the drained frontier. */
  lemma UnclaimedCollected(s: State, f: Floors)
    requires Protected(s) && s.manifest.checkpoint == s.manifest.durable == s.frontier && GreatestFloors(s, f)
    requires s.cursors == map[] && forall c :: c in s.claims ==> !c.status.Held?
    ensures var next := Prepare(s.manifest, f, true);
            && next.Ok? && next.value.historyFloor == s.frontier
            && next.value.logFloor == s.frontier + 1 && next.value.segments == []
  {
    hide ValidManifest, Prepare, Anchored;
    FloorsAccepted(s, f, true);
    assert IsFloor(s, Floors(s.frontier, s.manifest.checkpoint + 1));
    PreparedExact(s.manifest, f, true);
    var next := Prepare(s.manifest, f, true).value;
    if next.segments != [] {
      SegmentOrder(s.manifest, |s.manifest.segments| - |next.segments|);
    }
  }

  lemma PreparedAnchored(m: Manifest, f: Floors, collect: bool, digests: seq<ByteString>)
    requires ValidManifest(m) && Prepare(m, f, collect).Ok? && Anchored(m, digests)
    ensures Anchored(Prepare(m, f, collect).value, digests)
  {
    hide ValidManifest;
    if collect {
      var next := Prepare(m, f, collect).value;
      assert m.segments[0..] == m.segments;
      var k := DropIsSuffix(m, 0, f.log);
      forall j | 0 <= j < |next.segments|
        ensures AnchoredAt(next, digests, j)
      {
        assert AnchoredAt(m, digests, k + j);
      }
    }
  }

  lemma KeptSegments(m: Manifest, next: Manifest, k: nat, f: Floors)
    requires ValidManifest(m) && m.checkpoint == m.durable && m.logFloor <= f.log <= m.durable + 1
    requires m.historyFloor <= f.history <= m.checkpoint
    requires k <= |m.segments| && (forall j :: 0 <= j < k ==> m.segments[j].last < f.log)
    requires k < |m.segments| ==> m.segments[k].last >= f.log
    requires next == m.(historyFloor := f.history, segments := m.segments[k..],
                        logFloor := if m.segments[k..] == [] then m.durable + 1 else m.segments[k..][0].first)
    ensures ValidManifest(next) && m.logFloor <= next.logFloor <= f.log
  {
    hide ValidDescriptor;
    forall j | 0 <= j < |next.segments|
      ensures Continues(next, j)
    {
      assert next.segments[j] == m.segments[k + j];
      assert Continues(m, k + j);
      if j > 0 {
        assert next.segments[j - 1] == m.segments[k + j - 1];
      }
      if k > 0 {
        SegmentOrder(m, k);
        SegmentOrder(m, k - 1);
      }
    }
    if k < |m.segments| {
      SegmentOrder(m, k);
      if k > 0 {
        SegmentOrder(m, k - 1);
        SegmentsAscendFrom(m, k);
      }
      assert next.segments[|next.segments| - 1] == m.segments[|m.segments| - 1];
    } else if m.segments != [] {
      SegmentOrder(m, 0);
      SegmentOrder(m, |m.segments| - 1);
    }
  }

  lemma SegmentsAscendFrom(m: Manifest, k: nat)
    requires ValidManifest(m) && 0 < k < |m.segments|
    ensures m.logFloor <= m.segments[k].first
  {
    SegmentOrder(m, 0);
    SegmentsAscend(m, 0, k);
  }

  // ---------------------------------------------------------------- maintenance keeps every claim

  /** The floors the claims allow always satisfy what maintenance demands. */
  lemma FloorsAccepted(s: State, f: Floors, collect: bool)
    requires Protected(s) && s.manifest.checkpoint == s.manifest.durable == s.frontier && GreatestFloors(s, f)
    ensures Prepare(s.manifest, f, collect).Ok?
  {
    hide ValidManifest;
    CurrentFloors(s);
  }

  /** The current floors are allowed by every claim. */
  lemma CurrentFloors(s: State)
    requires Protected(s)
    ensures IsFloor(s, Floors(s.manifest.historyFloor, s.manifest.logFloor))
  {
    forall id | id in s.cursors
      ensures s.manifest.historyFloor <= s.cursors[id].baseline
      ensures !s.cursors[id].kind.Resolved? ==> s.manifest.logFloor <= s.cursors[id].baseline + 1
    {
      assert CursorOk(s, id, s.cursors[id]);
    }
  }

  lemma DrainedKeeps(s: State)
    requires Protected(s) && Drained(s).Ok?
    ensures Protected(Drained(s).value)
    ensures Drained(s).value.manifest.checkpoint == Drained(s).value.manifest.durable == Drained(s).value.frontier
  {
    hide ValidManifest, Anchored;
    var next := Drained(s).value;
    AnchoredLength(s.manifest, s.digests);
    CheckpointValid(s.manifest, s.digests, s.manifest.durable, next.manifest.generation);
    AnchoredFrame(s.manifest, next.manifest, s.digests);
    AdvanceKeeps(s, next);
  }

  lemma MaintainKeeps(s: State, f: Floors, collect: bool)
    requires Protected(s) && s.manifest.checkpoint == s.manifest.durable == s.frontier && GreatestFloors(s, f)
    ensures Prepare(s.manifest, f, collect).Ok?
    ensures Protected(s.(manifest := Prepare(s.manifest, f, collect).value, claims := Retain(s.claims, false)))
  {
    hide ValidManifest, Prepare, Anchored, Retain;
    FloorsAccepted(s, f, collect);
    PreparedValid(s.manifest, f, collect);
    PreparedAnchored(s.manifest, f, collect, s.digests);
    RetainNamed(s.claims, false, s.captures);
    var next := s.(manifest := Prepare(s.manifest, f, collect).value, claims := Retain(s.claims, false));
    forall i | 0 <= i < |next.claims|
      ensures next.claims[i] in s.claims
    {
      assert next.claims[i] in Retain(s.claims, false);
      RetainMembers(s.claims, false, next.claims[i]);
    }
    forall id | id in next.cursors
      ensures CursorOk(next, id, next.cursors[id])
    {
      assert CursorOk(s, id, s.cursors[id]);
    }
  }

  // ---------------------------------------------------------------- runs

  ghost predicate Step(s: State, next: State) {
    || next == Capture(s)
    || (exists i: nat, status: Status :: i < |s.claims| && !status.Held? && next == EndClaim(s, i, status))
    || (exists baseline, kind, name :: Checkout(s, baseline, kind, name) == Ok(next))
    || (exists id, kind, watermark :: Ack(s, id, kind, watermark) == Ok(next))
    || (exists id, kind :: Release(s, id, kind) == Ok(next))
    || (exists digests, bytes, rotate, id :: Commit(s, digests, bytes, rotate, id) == Ok(next))
    || (exists n :: Show(s, n) == Ok(next))
    || (exists n :: PublishAt(s, n) == Ok(next))
    || Restarts(s, next)
    || Drained(s) == Ok(next)
    || (exists f, collect :: Maintains(s, f, collect, next))
  }

  ghost predicate Maintains(s: State, f: Floors, collect: bool, next: State) {
    && s.manifest.checkpoint == s.manifest.durable == s.frontier && GreatestFloors(s, f)
    && Prepare(s.manifest, f, collect).Ok?
    && next == s.(manifest := Prepare(s.manifest, f, collect).value, claims := Retain(s.claims, false))
  }

  /** Neither the floors nor the frontier go back, and the log only grows. */
  ghost predicate MovesOn(s: State, next: State) {
    && next.manifest.historyFloor >= s.manifest.historyFloor && next.manifest.logFloor >= s.manifest.logFloor
    && next.frontier >= s.frontier && s.digests <= next.digests
  }

  lemma StepKeeps(s: State, next: State)
    requires Protected(s) && Step(s, next)
    ensures Protected(next) && MovesOn(s, next)
  {
    hide ValidManifest, Protected, Capture, EndClaim, Checkout, Ack, Release, Commit, Show, PublishAt, Restarts,
      Drained, Prepare, GreatestFloors;
    if next == Capture(s) {
      CaptureKeeps(s);
      CaptureMoves(s);
    } else if i: nat, status: Status :| i < |s.claims| && !status.Held? && next == EndClaim(s, i, status) {
      EndClaimKeeps(s, i, status);
      EndClaimMoves(s, i, status);
    } else if baseline, kind, name :| Checkout(s, baseline, kind, name) == Ok(next) {
      CheckoutKeeps(s, baseline, kind, name);
      CheckoutMoves(s, baseline, kind, name);
    } else if id, kind, watermark :| Ack(s, id, kind, watermark) == Ok(next) {
      AckKeeps(s, id, kind, watermark);
      AckMoves(s, id, kind, watermark);
    } else if id, kind :| Release(s, id, kind) == Ok(next) {
      ReleaseKeeps(s, id, kind);
      ReleaseMoves(s, id, kind);
    } else if digests, bytes, rotate, id :| Commit(s, digests, bytes, rotate, id) == Ok(next) {
      CommitKeeps(s, digests, bytes, rotate, id);
      CommitMoves(s, digests, bytes, rotate, id);
    } else if n :| Show(s, n) == Ok(next) {
      ShowKeeps(s, n);
      ShowMoves(s, n);
    } else if n :| PublishAt(s, n) == Ok(next) {
      PublishKeeps(s, n);
      PublishMoves(s, n);
    } else if Restarts(s, next) {
      RestartKeeps(s, next);
      RestartMoves(s, next);
    } else if Drained(s) == Ok(next) {
      DrainedKeeps(s);
      DrainedMoves(s);
    } else {
      var f, collect :| Maintains(s, f, collect, next);
      MaintainKeeps(s, f, collect);
      PreparedValid(s.manifest, f, collect) by { ProtectedManifest(s); }
    }
  }

  /** A cursor keeps its kind as long as it exists. */
  lemma KindKept(s: State, next: State, id: nat)
    requires Protected(s) && Step(s, next) && id in s.cursors && id in next.cursors
    ensures next.cursors[id].kind == s.cursors[id].kind
  {
    hide ValidManifest, Anchored, Prepare, Wal.GroupBytes, GreatestFloors, Retain;
    assert CursorOk(s, id, s.cursors[id]);
  }

  lemma ProtectedManifest(s: State)
    requires Protected(s)
    ensures ValidManifest(s.manifest)
  {
  }

  lemma CaptureMoves(s: State)
    ensures MovesOn(s, Capture(s))
  {
  }

  lemma EndClaimMoves(s: State, i: nat, status: Status)
    requires i < |s.claims| && !status.Held?
    ensures MovesOn(s, EndClaim(s, i, status))
  {
  }

  lemma CheckoutMoves(s: State, baseline: nat, kind: Kind, name: ByteString)
    requires Checkout(s, baseline, kind, name).Ok?
    ensures MovesOn(s, Checkout(s, baseline, kind, name).value)
  {
  }

  lemma AckMoves(s: State, id: nat, kind: Kind, watermark: nat)
    requires Ack(s, id, kind, watermark).Ok?
    ensures MovesOn(s, Ack(s, id, kind, watermark).value)
  {
  }

  lemma ReleaseMoves(s: State, id: nat, kind: Kind)
    requires Release(s, id, kind).Ok?
    ensures MovesOn(s, Release(s, id, kind).value)
  {
  }

  lemma CommitMoves(s: State, digests: seq<ByteString>, bytes: nat, rotate: bool, id: nat)
    requires Commit(s, digests, bytes, rotate, id).Ok?
    ensures MovesOn(s, Commit(s, digests, bytes, rotate, id).value)
  {
    hide Wal.GroupBytes;
  }

  lemma ShowMoves(s: State, n: nat)
    requires Show(s, n).Ok?
    ensures MovesOn(s, Show(s, n).value)
  {
  }

  lemma PublishMoves(s: State, n: nat)
    requires PublishAt(s, n).Ok?
    ensures MovesOn(s, PublishAt(s, n).value)
  {
  }

  lemma RestartMoves(s: State, next: State)
    requires Protected(s) && Restarts(s, next)
    ensures MovesOn(s, next)
  {
  }

  lemma DrainedMoves(s: State)
    requires Drained(s).Ok?
    ensures MovesOn(s, Drained(s).value)
  {
  }

  /**
   Over any run from a protected state, every claim stays readable, the floors never go
   back, and the manifest's segments partition the log from its floor to its end.
   */
  lemma {:induction false} RunProtected(states: seq<State>, i: nat, j: nat)
    requires states != [] && Protected(states[0]) && i <= j < |states|
    requires forall k :: 0 <= k < |states| - 1 ==> Step(states[k], states[k + 1])
    ensures Protected(states[i]) && Protected(states[j]) && MovesOn(states[i], states[j])
    decreases j
  {
    hide Protected, Step;
    if i < j {
      RunProtected(states, i, j - 1);
      assert Step(states[j - 1], states[j - 1 + 1]);
      StepKeeps(states[j - 1], states[j]);
    } else if j > 0 {
      RunProtected(states, j - 1, j - 1);
      assert Step(states[j - 1], states[j - 1 + 1]);
      StepKeeps(states[j - 1], states[j]);
    }
  }

  // ---------------------------------------------------------------- claims over whole runs

  /** The step revokes or drops claim `id`, or ends the process that holds it. */
  ghost predicate Ends(s: State, next: State, id: nat) {
    || Restarts(s, next)
    || exists i: nat, status: Status ::
         i < |s.claims| && s.claims[i].id == id && !status.Held? && next == EndClaim(s, i, status)
  }

  /** A step that does not end a held claim leaves it registered as it was. */
  lemma HeldKept(s: State, next: State, c: Claim)
    requires Protected(s) && Step(s, next) && c in s.claims && c.status.Held? && !Ends(s, next, c.id)
    ensures c in next.claims && s.captures <= next.captures
  {
    hide Protected, Checkout, Ack, Release, Commit, Show, PublishAt, Drained, Prepare, GreatestFloors, Retain;
    if next == Capture(s) {
      RetainMembers(s.claims, true, c);
    } else if i: nat, status: Status :| i < |s.claims| && !status.Held? && next == EndClaim(s, i, status) {
      EndsOne(s, i, status, c);
    } else if f, collect :| Maintains(s, f, collect, next) {
      RetainMembers(s.claims, false, c);
    } else {
      OtherStep(s, next);
    }
  }

  lemma EndsOne(s: State, i: nat, status: Status, c: Claim)
    requires i < |s.claims| && !status.Held? && c in s.claims && !Ends(s, EndClaim(s, i, status), c.id)
    ensures c in EndClaim(s, i, status).claims
  {
    var next := EndClaim(s, i, status);
    assert s.claims[i].id != c.id;
    var k :| 0 <= k < |s.claims| && s.claims[k] == c;
    assert next.claims[k] == c;
  }

  /** The remaining steps leave the registered snapshots alone. */
  lemma OtherStep(s: State, next: State)
    requires Step(s, next) && next != Capture(s) && !Restarts(s, next)
    requires !exists i: nat, status: Status :: i < |s.claims| && !status.Held? && next == EndClaim(s, i, status)
    requires !exists f, collect :: Maintains(s, f, collect, next)
    ensures next.claims == s.claims && next.captures == s.captures
  {
    hide Prepare, GreatestFloors, Retain, Extended, Wal.GroupBytes;
  }

  /**
   A snapshot holds its history for as long as it is held: over any run, a claim captured in one
   state and not ended since is still registered, and nothing at or above its sequence is collected.
   */
  lemma {:induction false} SnapshotHolds(states: seq<State>, i: nat, j: nat)
    requires states != [] && Protected(states[0]) && i < j < |states|
    requires forall k :: 0 <= k < |states| - 1 ==> Step(states[k], states[k + 1])
    requires states[i + 1] == Capture(states[i])
    requires forall k :: i < k < j ==> !Ends(states[k], states[k + 1], states[i].captures)
    ensures var claim := Claim(states[i].captures, states[i].frontier, Held);
            && claim in states[j].claims
            && states[j].manifest.historyFloor <= claim.sequence <= states[j].frontier
            && claim !in states[i].claims
    decreases j
  {
    hide Step, Ends, ValidManifest, Anchored, CursorOk, Retain;
    var claim := Claim(states[i].captures, states[i].frontier, Held);
    RunProtected(states, i, j);
    if j == i + 1 {
      assert states[j].claims[|states[j].claims| - 1] == claim;
    } else {
      SnapshotHolds(states, i, j - 1);
      RunProtected(states, j - 1, j);
      assert Step(states[j - 1], states[j - 1 + 1]) && !Ends(states[j - 1], states[j - 1 + 1], claim.id);
      HeldKept(states[j - 1], states[j], claim);
    }
  }

  ghost predicate Releases(s: State, next: State, id: nat) {
    exists kind :: Release(s, id, kind) == Ok(next)
  }

  ghost predicate Acknowledges(s: State, next: State, id: nat) {
    exists kind, watermark :: Ack(s, id, kind, watermark) == Ok(next)
  }

  /** A step leaves a cursor as it was, raises its baseline to an acknowledged watermark, or releases it. */
  lemma CursorStep(s: State, next: State, id: nat)
    requires Protected(s) && Step(s, next) && id in s.cursors && !Releases(s, next, id)
    ensures id in next.cursors
    ensures next.cursors[id].kind == s.cursors[id].kind && next.cursors[id].name == s.cursors[id].name
    ensures next.cursors[id].baseline >= s.cursors[id].baseline
    ensures next.cursors[id] == s.cursors[id] || Acknowledges(s, next, id)
  {
    hide ValidManifest, Anchored, Prepare, Extended, Wal.GroupBytes, GreatestFloors, Retain;
    assert CursorOk(s, id, s.cursors[id]);
  }

  /**
   A cursor holds its history until it is released: over any run, one checked out in one state
   and not released since is still there, of the same kind and name, at its baseline or at what
   was acknowledged since; from there on outcomes, and log records if it asked for them, are kept.
   */
  lemma {:induction false} CursorHolds(states: seq<State>, i: nat, j: nat, baseline: nat, kind: Kind, name: ByteString)
    requires states != [] && Protected(states[0]) && i < j < |states|
    requires forall k :: 0 <= k < |states| - 1 ==> Step(states[k], states[k + 1])
    requires Checkout(states[i], baseline, kind, name) == Ok(states[i + 1])
    requires forall k :: i < k < j ==> !Releases(states[k], states[k + 1], states[i].manifest.nextCursor)
    ensures var id, s := states[i].manifest.nextCursor, states[j];
            && id !in states[i].cursors && id in s.cursors
            && s.cursors[id].kind == kind && s.cursors[id].name == name
            && baseline <= s.cursors[id].baseline <= s.frontier
            && s.manifest.historyFloor <= s.cursors[id].baseline
            && (!kind.Resolved? ==> s.manifest.logFloor <= s.cursors[id].baseline + 1)
            && Lookup(s, id, kind) == Ok(Some(s.cursors[id]))
            && ((forall k :: i < k < j ==> !Acknowledges(states[k], states[k + 1], id)) ==>
                  s.cursors[id] == Cursor(kind, baseline, name))
    decreases j
  {
    hide Step, Releases, Acknowledges, ValidManifest, Anchored, Lookup, Decode;
    var id := states[i].manifest.nextCursor;
    RunProtected(states, i, j);
    if j > i + 1 {
      CursorHolds(states, i, j - 1, baseline, kind, name);
      RunProtected(states, j - 1, j);
      assert Step(states[j - 1], states[j - 1 + 1]) && !Releases(states[j - 1], states[j - 1 + 1], id);
      CursorStep(states[j - 1], states[j], id);
      assert (forall k :: i < k < j ==> !Acknowledges(states[k], states[k + 1], id)) ==>
          !Acknowledges(states[j - 1], states[j - 1 + 1], id);
    }
    CursorsReadable(states[j], id);
    assert CursorOk(states[j], id, states[j].cursors[id]);
    CursorsBelow(states[i]);
  }

  /** The next cursor ID is always new. */
  lemma CursorsBelow(s: State)
    requires Protected(s)
    ensures forall id :: id in s.cursors ==> id < s.manifest.nextCursor
  {
    hide ValidManifest;
    forall id | id in s.cursors
      ensures id < s.manifest.nextCursor
    {
      assert CursorOk(s, id, s.cursors[id]);
    }
  }

  // ---------------------------------------------------------------- the coordinator's side

  class Registry {
    var manifest: Manifest
    var claims: seq<Claim>
    var captures: nat
    var cursors: map<nat, Cursor>
    ghost var digests: seq<ByteString>

    ghost function Value(frontier: nat): State
      reads this
    {
      State(manifest, frontier, claims, captures, cursors, digests)
    }

    /** `capture`: forget dropped claims and register a new one at the frontier. */
    method TakeSnapshot(frontier: nat) returns (claim: Claim)
      modifies `claims, `captures
      ensures Value(frontier) == Capture(old(Value(frontier)))
      ensures claim == Claim(old(captures), frontier, Held) && captures == old(captures) + 1
      ensures forall c :: c in claims <==> c == claim || (c in old(claims) && !c.status.Dropped?)
    {
      var kept: seq<Claim> := [];
      for i := 0 to |claims|
        invariant unchanged(this)
        invariant kept + Retain(claims[i..], true) == Retain(claims, true)
      {
        assert claims[i..][1..] == claims[i + 1..];
        if !claims[i].status.Dropped? {
          Reassociate(kept, [claims[i]], Retain(claims[i + 1..], true));
          kept := kept + [claims[i]];
        }
      }
      assert claims[|claims|..] == [];
      forall c
        ensures c in kept <==> c in claims && !c.status.Dropped?
      {
        RetainMembers(claims, true, c);
      }
      claim := Claim(captures, frontier, Held);
      claims := kept + [claim];
      captures := captures + 1;
    }

    /** `snapshot_floor`: forget claims that are no longer held and take the least of the rest. */
    method SnapshotFloor(frontier: nat) returns (floor: nat)
      modifies `claims
      ensures claims == Retain(old(claims), false)
      ensures forall c :: c in claims <==> c in old(claims) && c.status.Held?
      ensures floor <= frontier && forall c :: c in old(claims) && c.status.Held? ==> floor <= c.sequence
      ensures floor == frontier || exists c :: c in old(claims) && c.status.Held? && floor == c.sequence
    {
      floor := frontier;
      var kept: seq<Claim> := [];
      for i := 0 to |claims|
        invariant unchanged(this)
        invariant kept + Retain(claims[i..], false) == Retain(claims, false)
        invariant floor <= frontier && forall j :: 0 <= j < i && claims[j].status.Held? ==> floor <= claims[j].sequence
        invariant floor == frontier || exists c :: c in claims && c.status.Held? && floor == c.sequence
      {
        assert claims[i..][1..] == claims[i + 1..];
        var c := claims[i];
        if c.status.Held? {
          assert c in claims;
          if c.sequence < floor {
            floor := c.sequence;
          }
          Reassociate(kept, [c], Retain(claims[i + 1..], false));
          kept := kept + [c];
        }
      }
      assert claims[|claims|..] == [];
      forall c
        ensures c in kept <==> c in claims && c.status.Held?
      {
        RetainMembers(claims, false, c);
      }
      claims := kept;
    }

    /** Lower the floors to what every listed cursor allows. */
    method CursorFloors(start: Floors) returns (r: Result<Floors>)
      requires forall id :: id in cursors ==> Decode(manifest, id, cursors[id]) == Ok(cursors[id])
      ensures r.Ok?
      ensures r.value.history <= start.history && r.value.log <= start.log
      ensures forall id :: id in cursors ==> Allows(cursors[id], r.value)
      ensures r.value.history == start.history || exists id :: id in cursors && r.value.history == cursors[id].baseline
      ensures r.value.log == start.log
              || exists id :: id in cursors && !cursors[id].kind.Resolved? && r.value.log == cursors[id].baseline + 1
    {
      var history, log := start.history, start.log;
      var rest := cursors.Keys;
      while rest != {}
        invariant rest <= cursors.Keys && 0 <= history <= start.history && 0 <= log <= start.log
        invariant forall id :: id in cursors && id !in rest ==> Allows(cursors[id], Floors(history, log))
        invariant history == start.history || exists id :: id in cursors && history == cursors[id].baseline
        invariant log == start.log
                  || exists id :: id in cursors && !cursors[id].kind.Resolved? && log == cursors[id].baseline + 1
        decreases |rest|
      {
        var id :| id in rest;
        rest := rest - {id};
        var c := Decode(manifest, id, cursors[id]);
        if c.Err? {
          return Err(Corrupt);
        }
        var baseline := c.value.baseline;
        if baseline < history {
          history := baseline;
        }
        if !c.value.kind.Resolved? && baseline + 1 < log {
          log := baseline + 1;
        }
      }
      r := Ok(Floors(history, log));
    }

    /** `retention_floors`: the greatest floors every claim allows. */
    method RetentionFloors(frontier: nat) returns (r: Result<Floors>)
      requires Protected(Value(frontier))
      modifies `claims
      ensures r.Ok? && GreatestFloors(old(Value(frontier)), r.value)
      ensures Protected(Value(frontier)) && claims == Retain(old(claims), false)
    {
      hide ValidManifest, Decode, CursorOk, Anchored;
      ghost var before := Value(frontier);
      var history := SnapshotFloor(frontier);
      HeldClaims(before, Value(frontier));
      forall id | id in cursors
        ensures Decode(manifest, id, cursors[id]) == Ok(cursors[id])
      {
        CursorsReadable(Value(frontier), id);
      }
      r := CursorFloors(Floors(history, manifest.checkpoint + 1));
      ChosenFloors(before, history, r.value);
    }

    /** Maintenance at the drained frontier: it never refuses the floors it was given. */
    method Maintain(frontier: nat, collect: bool) returns (r: Result<Floors>)
      requires Protected(Value(frontier)) && manifest.checkpoint == manifest.durable == frontier
      modifies `manifest, `claims
      ensures r.Ok? && Protected(Value(frontier))
      ensures Maintains(old(Value(frontier)), r.value, collect, Value(frontier))
      ensures forall c :: c in claims <==> c in old(claims) && c.status.Held?
      ensures forall c :: c in claims ==> manifest.historyFloor <= c.sequence
    {
      hide ValidManifest, Prepare, GreatestFloors;
      ghost var before := Value(frontier);
      var floors := RetentionFloors(frontier);
      if floors.Err? {
        return floors;
      }
      MaintainKeeps(before, floors.value, collect);
      forall c
        ensures c in claims <==> c in before.claims && c.status.Held?
      {
        RetainMembers(before.claims, false, c);
      }
      var prepared := Prepare(manifest, floors.value, collect);
      if prepared.Err? {
        return Err(NeedsRecovery);
      }
      manifest := prepared.value;
      r := floors;
    }
  }

  predicate Allows(c: Cursor, f: Floors) {
    f.history <= c.baseline && (!c.kind.Resolved? ==> f.log <= c.baseline + 1)
  }

  /** Floors that every claim allows and some claim attains are the greatest. */
  lemma ChosenFloors(s: State, history: nat, f: Floors)
    requires history <= s.frontier && forall c :: c in s.claims && c.status.Held? ==> history <= c.sequence
    requires history == s.frontier || exists c :: c in s.claims && c.status.Held? && history == c.sequence
    requires f.history <= history && f.log <= s.manifest.checkpoint + 1
    requires forall id :: id in s.cursors ==> Allows(s.cursors[id], f)
    requires f.history == history || exists id :: id in s.cursors && f.history == s.cursors[id].baseline
    requires f.log == s.manifest.checkpoint + 1
             || exists id :: id in s.cursors && !s.cursors[id].kind.Resolved? && f.log == s.cursors[id].baseline + 1
    ensures GreatestFloors(s, f)
  {
    forall id | id in s.cursors
      ensures f.history <= s.cursors[id].baseline
      ensures !s.cursors[id].kind.Resolved? ==> f.log <= s.cursors[id].baseline + 1
    {
      assert Allows(s.cursors[id], f);
    }
  }

  /** Forgetting claims that are not held changes nothing that is protected. */
  lemma HeldClaims(s: State, next: State)
    requires Protected(s) && next == s.(claims := Retain(s.claims, false))
    ensures Protected(next)
    ensures forall c :: c in s.claims && c.status.Held? <==> c in next.claims && c.status.Held?
  {
    hide ValidManifest;
    RetainNamed(s.claims, false, s.captures);
    forall c
      ensures c in next.claims <==> c in s.claims && c.status.Held?
    {
      RetainMembers(s.claims, false, c);
    }
    forall id | id in next.cursors
      ensures CursorOk(next, id, next.cursors[id])
    {
      assert CursorOk(s, id, s.cursors[id]);
    }
  }
}
