/** Audit segments as hash chains: building, verifying, and what a final checksum determines. */
module Audit {
  import opened Ordering

  datatype OptionalText = NoText | Text(value: string)

  /** Payload values stand for their canonical text; timestamps are instants. */
  datatype Event = Event(
    eventId: string,
    eventType: string,
    actor: string,
    subjectId: OptionalText,
    causationId: string,
    correlationId: string,
    createdAt: int,
    payload: map<string, string>)

  datatype Entry = Entry(
    tenantId: string,
    workspaceId: string,
    segmentId: string,
    seqNo: int,
    event: Event,
    payloadHash: string,
    previousChecksum: string,
    checksum: string)

  datatype Segment = Segment(
    tenantId: string,
    workspaceId: string,
    segmentId: string,
    entries: seq<Entry>,
    closed: bool,
    finalChecksum: string)

  /** Everything a checksum covers besides the previous checksum and the payload. */
  datatype Envelope = Envelope(
    actor: string,
    causationId: string,
    correlationId: string,
    createdAt: int,
    eventId: string,
    eventType: string,
    segmentId: string,
    seqNo: int,
    subjectId: OptionalText,
    tenantId: string,
    workspaceId: string)

  /** The hash and the two canonical encodings. */
  datatype Codec = Codec(hash: string -> string, envelope: Envelope -> string, payload: map<string, string> -> string)

  /** The checksum before the first entry: 64 zeros. */
  function Genesis(): (s: string)
    ensures |s| == 64 && forall i :: 0 <= i < 64 ==> s[i] == '0'
  {
    seq(64, _ => '0')
  }

  /** Digests have 64 characters; the encodings lose nothing. */
  ghost predicate Canonical(codec: Codec) {
    && (forall s :: |codec.hash(s)| == 64)
    && (forall a, b :: codec.envelope(a) == codec.envelope(b) ==> a == b)
    && (forall a, b :: codec.payload(a) == codec.payload(b) ==> a == b)
  }

  // ----- Links -----

  function EnvelopeOf(s: Segment, event: Event, seqNo: int): Envelope {
    Envelope(event.actor, event.causationId, event.correlationId, event.createdAt, event.eventId, event.eventType,
             s.segmentId, seqNo, event.subjectId, s.tenantId, s.workspaceId)
  }

  function PayloadHash(codec: Codec, event: Event): string {
    codec.hash(codec.payload(event.payload))
  }

  /** The text whose hash is an entry's checksum. */
  function LinkText(codec: Codec, s: Segment, event: Event, seqNo: int, previous: string): string {
    previous + codec.envelope(EnvelopeOf(s, event, seqNo)) + PayloadHash(codec, event)
  }

  function EventIds(entries: seq<Entry>): set<string> {
    set e | e in entries :: e.event.eventId
  }

  function ChecksumBefore(entries: seq<Entry>, i: nat): string
    requires i <= |entries|
  {
    if i == 0 then Genesis() else entries[i - 1].checksum
  }

  datatype Failure =
    | NoFailure
    | SequenceMismatch
    | DuplicateEventId
    | PreviousChecksumMismatch
    | PayloadHashMismatch
    | ChecksumMismatch
    | FinalChecksumMismatch
    | ExternalAnchorRequired
    | InvalidExternalAnchor

  /** The first integrity failure of one entry. */
  function EntryFailure(codec: Codec, s: Segment, entry: Entry, expectedSeq: int, previous: string, eventIds: set<string>): Failure {
    if entry.seqNo != expectedSeq then SequenceMismatch
    else if entry.event.eventId in eventIds then DuplicateEventId
    else if entry.previousChecksum != previous then PreviousChecksumMismatch
    else if entry.payloadHash != PayloadHash(codec, entry.event) then PayloadHashMismatch
    else if entry.checksum != codec.hash(LinkText(codec, s, entry.event, entry.seqNo, previous)) then ChecksumMismatch
    else NoFailure
  }

  function LinkFailure(codec: Codec, s: Segment, i: nat): Failure
    requires i < |s.entries|
  {
    EntryFailure(codec, s, s.entries[i], i + 1, ChecksumBefore(s.entries, i), EventIds(s.entries[..i]))
  }

  /** Every entry continues the chain, and the final checksum is the last one. */
  ghost predicate IsChain(codec: Codec, s: Segment) {
    && (forall i :: 0 <= i < |s.entries| ==> LinkFailure(codec, s, i) == NoFailure)
    && s.finalChecksum == ChecksumBefore(s.entries, |s.entries|)
  }

  // ----- Building segments -----

  datatype Built = BlankScope | ClosedSegment | RepeatedEvent | EmptySegment | Built(segment: Segment)

  function Open(tenantId: string, workspaceId: string, segmentId: string): Built {
    if Blank(tenantId) || Blank(workspaceId) || Blank(segmentId) then BlankScope
    else Built(Segment(tenantId, workspaceId, segmentId, [], false, Genesis()))
  }

  function AppendEvent(codec: Codec, s: Segment, event: Event): Built {
    if s.closed then ClosedSegment
    else if exists e :: e in s.entries && e.event.eventId == event.eventId then RepeatedEvent
    else
      var seqNo := |s.entries| + 1;
      var checksum := codec.hash(LinkText(codec, s, event, seqNo, s.finalChecksum));
      var entry := Entry(s.tenantId, s.workspaceId, s.segmentId, seqNo, event, PayloadHash(codec, event), s.finalChecksum, checksum);
      Built(s.(entries := s.entries + [entry], finalChecksum := checksum))
  }

  function Close(s: Segment): Built {
    if s.entries == [] then EmptySegment else Built(s.(closed := true))
  }

  datatype Step = Append(event: Event) | CloseIt

  /** A sequence of operations on a segment; a refused one leaves it as it was. */
  function Grow(codec: Codec, s: Segment, steps: seq<Step>): Segment
    decreases |steps|
  {
    if steps == [] then s
    else
      var r := match steps[0] case Append(event) => AppendEvent(codec, s, event) case CloseIt => Close(s);
      Grow(codec, if r.Built? then r.segment else s, steps[1..])
  }

  lemma AppendKeepsChain(codec: Codec, s: Segment, event: Event)
    requires IsChain(codec, s) && AppendEvent(codec, s, event).Built?
    ensures IsChain(codec, AppendEvent(codec, s, event).segment)
  {
    var s' := AppendEvent(codec, s, event).segment;
    forall i | 0 <= i < |s'.entries| ensures LinkFailure(codec, s', i) == NoFailure {
      assert s'.entries[..i] == s.entries[..i];
      if i < |s.entries| {
        assert LinkFailure(codec, s, i) == NoFailure;
        assert EnvelopeOf(s', s.entries[i].event, i + 1) == EnvelopeOf(s, s.entries[i].event, i + 1);
      } else {
        assert s.entries[..i] == s.entries;
        assert EnvelopeOf(s', event, i + 1) == EnvelopeOf(s, event, i + 1);
      }
    }
  }

  lemma CloseKeepsChain(codec: Codec, s: Segment)
    requires IsChain(codec, s)
    ensures IsChain(codec, s.(closed := true))
  {
    var s' := s.(closed := true);
    forall i | 0 <= i < |s'.entries| ensures LinkFailure(codec, s', i) == NoFailure {
      assert LinkFailure(codec, s, i) == NoFailure;
      assert EnvelopeOf(s', s.entries[i].event, i + 1) == EnvelopeOf(s, s.entries[i].event, i + 1);
    }
  }

  lemma {:induction false} GrowKeepsChain(codec: Codec, s: Segment, steps: seq<Step>)
    requires IsChain(codec, s)
    ensures IsChain(codec, Grow(codec, s, steps))
    decreases |steps|
  {
    if steps != [] {
      match steps[0] {
        case Append(event) =>
          var r := AppendEvent(codec, s, event);
          if r.Built? { AppendKeepsChain(codec, s, event); }
          GrowKeepsChain(codec, if r.Built? then r.segment else s, steps[1..]);
        case CloseIt =>
          var r := Close(s);
          CloseKeepsChain(codec, s);
          GrowKeepsChain(codec, if r.Built? then r.segment else s, steps[1..]);
      }
    }
  }

  /** Every segment built by opening, appending and closing is a chain. */
  lemma BuiltSegmentsVerify(codec: Codec, tenantId: string, workspaceId: string, segmentId: string, steps: seq<Step>)
    requires Open(tenantId, workspaceId, segmentId).Built?
    ensures IsChain(codec, Grow(codec, Open(tenantId, workspaceId, segmentId).segment, steps))
  {
    GrowKeepsChain(codec, Open(tenantId, workspaceId, segmentId).segment, steps);
  }

  // ----- What a chain is, in terms of the stored fields -----

  /** The checksum that the entry's own fields, the segment's scope and the checksum before it ask for. */
  function ExpectedChecksum(codec: Codec, s: Segment, e: Entry, previous: string): string {
    codec.hash(previous
               + codec.envelope(Envelope(e.event.actor, e.event.causationId, e.event.correlationId, e.event.createdAt, e.event.eventId,
                                         e.event.eventType, s.segmentId, e.seqNo, e.event.subjectId, s.tenantId, s.workspaceId))
               + codec.hash(codec.payload(e.event.payload)))
  }

  /** An event identifier used before position `i`. */
  ghost predicate UsedBefore(entries: seq<Entry>, i: nat) {
    i < |entries| && exists k :: 0 <= k < i && entries[k].event.eventId == entries[i].event.eventId
  }

  ghost predicate GenesisText(t: string) {
    |t| == 64 && forall i :: 0 <= i < 64 ==> t[i] == '0'
  }

  /** The checksum that entry `i` has to continue. */
  ghost predicate IsPrevious(s: Segment, i: nat, previous: string) {
    i <= |s.entries| && if i == 0 then GenesisText(previous) else previous == s.entries[i - 1].checksum
  }

  /** Each failure code of an entry, and the absence of one, means what it says; the first check that fails gives the code. */
  lemma FailureMeans(codec: Codec, s: Segment, i: nat, previous: string)
    requires i < |s.entries| && IsPrevious(s, i, previous)
    ensures var e, f := s.entries[i], LinkFailure(codec, s, i);
            if e.seqNo != i + 1 then f == SequenceMismatch
            else if UsedBefore(s.entries, i) then f == DuplicateEventId
            else if e.previousChecksum != previous then f == PreviousChecksumMismatch
            else if e.payloadHash != codec.hash(codec.payload(e.event.payload)) then f == PayloadHashMismatch
            else if e.checksum != ExpectedChecksum(codec, s, e, previous) then f == ChecksumMismatch
            else f == NoFailure
  {
    if i == 0 { assert previous == Genesis(); }
    var id := s.entries[i].event.eventId;
    if id in EventIds(s.entries[..i]) {
      var k :| 0 <= k < i && s.entries[..i][k].event.eventId == id;
      assert s.entries[k].event.eventId == id;
    }
    if k :| 0 <= k < i && s.entries[k].event.eventId == id {
      assert s.entries[..i][k] in s.entries[..i];
    }
  }

  /** An entry that is what its position, its event and the entry before it ask for. */
  ghost predicate RightEntry(codec: Codec, s: Segment, i: nat)
    requires i < |s.entries|
  {
    var e := s.entries[i];
    && e.seqNo == i + 1 && IsPrevious(s, i, e.previousChecksum)
    && e.payloadHash == codec.hash(codec.payload(e.event.payload)) && e.checksum == ExpectedChecksum(codec, s, e, e.previousChecksum)
  }

  /** A chain: entries numbered from 1, each linked to the one before and hashed over all its content, no event twice; the last checksum is the segment's. */
  lemma ChainMeans(codec: Codec, s: Segment)
    ensures IsChain(codec, s) <==>
            && (forall i :: 0 <= i < |s.entries| ==> RightEntry(codec, s, i))
            && (forall i, j :: 0 <= i < j < |s.entries| ==> s.entries[i].event.eventId != s.entries[j].event.eventId)
            && IsPrevious(s, |s.entries|, s.finalChecksum)
  {
    LinksMean(codec, s);
    GenesisOnly(s.finalChecksum);
    NoneUsedBefore(s.entries);
  }

  lemma LinksMean(codec: Codec, s: Segment)
    ensures (forall i :: 0 <= i < |s.entries| ==> LinkFailure(codec, s, i) == NoFailure) <==>
            (forall i :: 0 <= i < |s.entries| ==> RightEntry(codec, s, i)) && (forall i :: 0 <= i < |s.entries| ==> !UsedBefore(s.entries, i))
  {
    forall i | 0 <= i < |s.entries| ensures LinkFailure(codec, s, i) == NoFailure <==> RightEntry(codec, s, i) && !UsedBefore(s.entries, i) {
      LinkMeans(codec, s, i);
    }
  }

  lemma NoneUsedBefore(entries: seq<Entry>)
    ensures (forall i :: 0 <= i < |entries| ==> !UsedBefore(entries, i)) <==>
            (forall i, j :: 0 <= i < j < |entries| ==> entries[i].event.eventId != entries[j].event.eventId)
  {
    if forall i :: 0 <= i < |entries| ==> !UsedBefore(entries, i) {
      forall i, j | 0 <= i < j < |entries| ensures entries[i].event.eventId != entries[j].event.eventId {
        assert !UsedBefore(entries, j);
      }
    }
  }

  lemma GenesisOnly(t: string)
    ensures GenesisText(t) <==> t == Genesis()
  {
  }

  lemma LinkMeans(codec: Codec, s: Segment, i: nat)
    requires i < |s.entries|
    ensures LinkFailure(codec, s, i) == NoFailure <==> RightEntry(codec, s, i) && !UsedBefore(s.entries, i)
  {
    var previous := ChecksumBefore(s.entries, i);
    GenesisOnly(previous);
    GenesisOnly(s.entries[i].previousChecksum);
    FailureMeans(codec, s, i, previous);
  }

  /** Opening needs a scope; the new segment is open, empty and ends in the genesis checksum. */
  lemma OpenMeans(tenantId: string, workspaceId: string, segmentId: string)
    ensures var r := Open(tenantId, workspaceId, segmentId);
            && (r.Built? <==> !Blank(tenantId) && !Blank(workspaceId) && !Blank(segmentId))
            && (!r.Built? ==> r == BlankScope)
            && (r.Built? ==> r.segment.tenantId == tenantId && r.segment.workspaceId == workspaceId && r.segment.segmentId == segmentId &&
                             r.segment.entries == [] && !r.segment.closed && GenesisText(r.segment.finalChecksum))
  {
  }

  /** Appending needs an open segment and an unused event identifier; it adds one entry for the event and keeps everything else. */
  lemma AppendMeans(codec: Codec, s: Segment, event: Event)
    ensures var r := AppendEvent(codec, s, event);
            if s.closed then r == ClosedSegment
            else if exists k :: 0 <= k < |s.entries| && s.entries[k].event.eventId == event.eventId then r == RepeatedEvent
            else
              && r.Built? && |r.segment.entries| == |s.entries| + 1 && r.segment.entries[..|s.entries|] == s.entries
              && var e := r.segment.entries[|s.entries|];
                 && e.event == event && e.tenantId == s.tenantId && e.workspaceId == s.workspaceId && e.segmentId == s.segmentId
                 && e.seqNo == |s.entries| + 1 && e.previousChecksum == s.finalChecksum
                 && e.payloadHash == codec.hash(codec.payload(event.payload)) && e.checksum == ExpectedChecksum(codec, s, e, s.finalChecksum)
                 && r.segment == s.(entries := s.entries + [e], finalChecksum := e.checksum)
  {
    if k :| 0 <= k < |s.entries| && s.entries[k].event.eventId == event.eventId {
      assert s.entries[k] in s.entries;
    }
  }

  /** Closing needs an entry; it only closes. */
  lemma CloseMeans(s: Segment)
    ensures Close(s) == if |s.entries| == 0 then EmptySegment else Built(s.(closed := true))
  {
  }

  // ----- Anchors -----

  datatype Anchor = Anchor(segmentId: string, segmentChecksum: string, signer: string, signature: string)

  datatype OptionalAnchor = NoAnchor | Anchored(anchor: Anchor)

  function Signature(codec: Codec, segmentId: string, checksum: string, signer: string): string {
    codec.hash(segmentId + ":" + checksum + ":" + signer)
  }

  /** Only a closed segment with a named signer is anchored, and its anchor verifies. */
  function Sign(codec: Codec, s: Segment, signer: string): (r: OptionalAnchor)
    ensures r.Anchored? <==> s.closed && !Blank(signer)
    ensures r.Anchored? ==> r.anchor.signer == signer && AnchorVerifies(codec, r.anchor, s)
  {
    if !s.closed || Blank(signer) then NoAnchor
    else Anchored(Anchor(s.segmentId, s.finalChecksum, signer, Signature(codec, s.segmentId, s.finalChecksum, signer)))
  }

  predicate AnchorVerifies(codec: Codec, anchor: Anchor, s: Segment) {
    && anchor.segmentId == s.segmentId && anchor.segmentChecksum == s.finalChecksum
    && anchor.signature == Signature(codec, anchor.segmentId, anchor.segmentChecksum, anchor.signer)
  }

  /** Whether the anchor situation is acceptable: a given anchor must verify, a required one must be given. */
  predicate AnchorAccepted(codec: Codec, s: Segment, anchor: OptionalAnchor, required: bool) {
    if anchor.Anchored? then AnchorVerifies(codec, anchor.anchor, s) else !required
  }

  /** An anchor verifies for the segment it names, at the checksum it names, with the signature over both and the signer. */
  lemma AnchorMeans(codec: Codec, anchor: Anchor, s: Segment)
    ensures AnchorVerifies(codec, anchor, s) <==>
            && anchor.segmentId == s.segmentId && anchor.segmentChecksum == s.finalChecksum
            && anchor.signature == codec.hash(s.segmentId + ":" + s.finalChecksum + ":" + anchor.signer)
  {
  }

  // ----- Verification -----

  ghost predicate GoodLinks(codec: Codec, s: Segment, n: nat) {
    n <= |s.entries| && forall i :: 0 <= i < n ==> LinkFailure(codec, s, i) == NoFailure
  }

  /** The loop over the entries stops at the first failure; without one it ends with the last checksum. */
  method VerifyEntries(codec: Codec, s: Segment) returns (failure: Failure, previous: string)
    ensures failure == NoFailure ==> GoodLinks(codec, s, |s.entries|) && previous == ChecksumBefore(s.entries, |s.entries|)
    ensures failure != NoFailure ==> exists i :: 0 <= i < |s.entries| && failure == LinkFailure(codec, s, i) && GoodLinks(codec, s, i)
  {
    previous := Genesis();
    var eventIds: set<string> := {};
    for i := 0 to |s.entries|
      invariant previous == ChecksumBefore(s.entries, i) && eventIds == EventIds(s.entries[..i])
      invariant GoodLinks(codec, s, i)
    {
      var entry := s.entries[i];
      failure := EntryFailure(codec, s, entry, i + 1, previous, eventIds);
      assert failure == LinkFailure(codec, s, i);
      if failure != NoFailure {
        return;
      }
      assert s.entries[..i + 1] == s.entries[..i] + [entry];
      eventIds := eventIds + {entry.event.eventId};
      previous := codec.hash(LinkText(codec, s, entry.event, entry.seqNo, previous));
    }
    failure := NoFailure;
  }

  /** Accepts exactly the chains with an acceptable anchor; otherwise reports the first failure. */
  method VerifySegment(codec: Codec, s: Segment, anchor: OptionalAnchor, requireAnchor: bool) returns (failure: Failure)
    ensures failure == NoFailure <==> IsChain(codec, s) && AnchorAccepted(codec, s, anchor, requireAnchor)
    ensures failure == FinalChecksumMismatch <==> GoodLinks(codec, s, |s.entries|) && !IsChain(codec, s)
    ensures failure == ExternalAnchorRequired <==>
            IsChain(codec, s) && requireAnchor && !AnchorAccepted(codec, s, anchor, requireAnchor)
    ensures failure == InvalidExternalAnchor <==>
            IsChain(codec, s) && !requireAnchor && !AnchorAccepted(codec, s, anchor, requireAnchor)
    ensures failure != NoFailure && !(failure.FinalChecksumMismatch? || failure.ExternalAnchorRequired? || failure.InvalidExternalAnchor?) ==>
              exists i :: 0 <= i < |s.entries| && failure == LinkFailure(codec, s, i) && GoodLinks(codec, s, i)
  {
    var previous;
    failure, previous := VerifyEntries(codec, s);
    if failure != NoFailure {
      return;
    }
    var anchorValid := anchor.Anchored? && AnchorVerifies(codec, anchor.anchor, s);
    if previous != s.finalChecksum {
      failure := FinalChecksumMismatch;
    } else if requireAnchor && !anchorValid {
      failure := ExternalAnchorRequired;
    } else if anchor.Anchored? && !anchorValid {
      failure := InvalidExternalAnchor;
    } else {
      failure := NoFailure;
    }
  }

  // ----- What a final checksum determines -----

  /** The texts hashed when a segment is verified. */
  function HashedTexts(codec: Codec, s: Segment): set<string> {
    (set e | e in s.entries :: codec.payload(e.event.payload)) +
    (set e | e in s.entries :: LinkText(codec, s, e.event, e.seqNo, e.previousChecksum))
  }

  /** The hash tells apart the texts it is given. */
  ghost predicate NoCollision(codec: Codec, texts: set<string>) {
    forall x, y :: x in texts && y in texts && codec.hash(x) == codec.hash(y) ==> x == y
  }

  /** Everything an entry holds besides its unchecked copies of the segment's scope. */
  ghost predicate SameEntry(x: Entry, y: Entry) {
    && x.seqNo == y.seqNo && x.event == y.event && x.payloadHash == y.payloadHash
    && x.previousChecksum == y.previousChecksum && x.checksum == y.checksum
  }

  ghost predicate SameScope(a: Segment, b: Segment) {
    a.tenantId == b.tenantId && a.workspaceId == b.workspaceId && a.segmentId == b.segmentId
  }

  lemma SplitText(p: string, e: string, h: string, p': string, e': string, h': string)
    requires p + e + h == p' + e' + h' && |p| == |p'| && |h| == |h'|
    ensures p == p' && e == e' && h == h'
  {
    var t := p + e + h;
    assert |e| == |e'|;
    assert p == t[..|p|] && e == t[|p|..|p| + |e|] && h == t[|p| + |e|..];
    assert p' == t[..|p|] && e' == t[|p|..|p| + |e|] && h' == t[|p| + |e|..];
  }

  /** What a good link says about its entry. */
  lemma GoodLink(codec: Codec, s: Segment, i: nat)
    requires Canonical(codec) && IsChain(codec, s) && i < |s.entries|
    ensures var e := s.entries[i];
            && e.seqNo == i + 1 && e.previousChecksum == ChecksumBefore(s.entries, i) && |e.previousChecksum| == 64
            && e.payloadHash == PayloadHash(codec, e.event)
            && e.checksum == codec.hash(LinkText(codec, s, e.event, e.seqNo, e.previousChecksum))
            && LinkText(codec, s, e.event, e.seqNo, e.previousChecksum) in HashedTexts(codec, s)
            && codec.payload(e.event.payload) in HashedTexts(codec, s)
  {
    assert LinkFailure(codec, s, i) == NoFailure;
    assert s.entries[i] in s.entries;
    if i > 0 {
      assert LinkFailure(codec, s, i - 1) == NoFailure;
    }
  }

  lemma SameEvent(codec: Codec, a: Segment, b: Segment, x: Event, y: Event, n: int, m: int)
    requires EnvelopeOf(a, x, n) == EnvelopeOf(b, y, m) && x.payload == y.payload
    ensures x == y && n == m && SameScope(a, b)
  {
    var v, w := EnvelopeOf(a, x, n), EnvelopeOf(b, y, m);
    assert v.eventId == w.eventId && v.eventType == w.eventType && v.actor == w.actor && v.subjectId == w.subjectId;
    assert v.causationId == w.causationId && v.correlationId == w.correlationId && v.createdAt == w.createdAt;
  }

  /** Equal checksums come from equal entries, at equal positions, of segments of equal scope. */
  lemma SameLink(codec: Codec, a: Segment, b: Segment, i: nat, j: nat)
    requires Canonical(codec) && IsChain(codec, a) && IsChain(codec, b)
    requires NoCollision(codec, HashedTexts(codec, a) + HashedTexts(codec, b))
    requires i < |a.entries| && j < |b.entries| && a.entries[i].checksum == b.entries[j].checksum
    ensures i == j && SameScope(a, b) && SameEntry(a.entries[i], b.entries[j])
  {
    var x, y := a.entries[i], b.entries[j];
    GoodLink(codec, a, i);
    GoodLink(codec, b, j);
    SplitText(x.previousChecksum, codec.envelope(EnvelopeOf(a, x.event, x.seqNo)), PayloadHash(codec, x.event),
              y.previousChecksum, codec.envelope(EnvelopeOf(b, y.event, y.seqNo)), PayloadHash(codec, y.event));
    assert codec.payload(x.event.payload) == codec.payload(y.event.payload);
    SameEvent(codec, a, b, x.event, y.event, x.seqNo, y.seqNo);
  }

  lemma SameBefore(codec: Codec, a: Segment, b: Segment, i: nat)
    requires Canonical(codec) && IsChain(codec, a) && IsChain(codec, b)
    requires NoCollision(codec, HashedTexts(codec, a) + HashedTexts(codec, b))
    requires i < |a.entries| && i < |b.entries| && a.entries[i].checksum == b.entries[i].checksum
    ensures SameEntry(a.entries[i], b.entries[i]) && ChecksumBefore(a.entries, i) == ChecksumBefore(b.entries, i)
  {
    SameLink(codec, a, b, i, i);
    GoodLink(codec, a, i);
    GoodLink(codec, b, i);
  }

  /** Equality of the checksums before entry `n` spreads to every entry before it. */
  lemma {:induction false} SameUpTo(a: seq<Entry>, b: seq<Entry>, n: nat)
    requires n <= |a| && n <= |b| && ChecksumBefore(a, n) == ChecksumBefore(b, n)
    requires forall k :: 0 <= k < n && a[k].checksum == b[k].checksum ==>
                           SameEntry(a[k], b[k]) && ChecksumBefore(a, k) == ChecksumBefore(b, k)
    ensures forall i :: 0 <= i < n ==> SameEntry(a[i], b[i])
  {
    if n > 0 {
      assert a[n - 1].checksum == b[n - 1].checksum;
      SameUpTo(a, b, n - 1);
    }
  }

  /** Two non-empty chains with one final checksum have one scope, one length, and entry by entry one content. */
  lemma FinalChecksumDetermines(codec: Codec, a: Segment, b: Segment)
    requires Canonical(codec) && IsChain(codec, a) && IsChain(codec, b)
    requires NoCollision(codec, HashedTexts(codec, a) + HashedTexts(codec, b))
    requires a.entries != [] && b.entries != [] && a.finalChecksum == b.finalChecksum
    ensures SameScope(a, b) && |a.entries| == |b.entries|
    ensures forall i :: 0 <= i < |a.entries| ==> SameEntry(a.entries[i], b.entries[i])
  {
    SameLink(codec, a, b, |a.entries| - 1, |b.entries| - 1);
    forall k | 0 <= k < |a.entries| && a.entries[k].checksum == b.entries[k].checksum
      ensures SameEntry(a.entries[k], b.entries[k]) && ChecksumBefore(a.entries, k) == ChecksumBefore(b.entries, k)
    {
      SameBefore(codec, a, b, k);
    }
    SameUpTo(a.entries, b.entries, |a.entries|);
  }

  /** One anchor vouches for one history: it cannot verify for two chains that differ. */
  lemma AnchorDetermines(codec: Codec, anchor: Anchor, a: Segment, b: Segment)
    requires Canonical(codec) && IsChain(codec, a) && IsChain(codec, b)
    requires NoCollision(codec, HashedTexts(codec, a) + HashedTexts(codec, b))
    requires a.entries != [] && b.entries != [] && AnchorVerifies(codec, anchor, a) && AnchorVerifies(codec, anchor, b)
    ensures SameScope(a, b) && |a.entries| == |b.entries|
    ensures forall i :: 0 <= i < |a.entries| ==> SameEntry(a.entries[i], b.entries[i])
  {
    FinalChecksumDetermines(codec, a, b);
  }

  /** The copies of the scope on an entry are outside every check. */
  lemma CopiesUnchecked(codec: Codec, s: Segment, k: nat, tenantId: string, workspaceId: string, segmentId: string)
    requires k < |s.entries|
    ensures var copy := s.entries[k].(tenantId := tenantId, workspaceId := workspaceId, segmentId := segmentId);
            IsChain(codec, s.(entries := s.entries[k := copy])) <==> IsChain(codec, s)
  {
    var copy := s.entries[k].(tenantId := tenantId, workspaceId := workspaceId, segmentId := segmentId);
    var s' := s.(entries := s.entries[k := copy]);
    forall i | 0 <= i < |s.entries| ensures LinkFailure(codec, s', i) == LinkFailure(codec, s, i) {
      SameCheck(codec, s, s', i);
    }
  }

  lemma SameCheck(codec: Codec, s: Segment, s': Segment, i: nat)
    requires SameScope(s, s') && |s.entries| == |s'.entries| && i < |s.entries|
    requires forall k :: 0 <= k < |s.entries| ==> SameEntry(s.entries[k], s'.entries[k])
    ensures LinkFailure(codec, s', i) == LinkFailure(codec, s, i)
  {
    SameIdsBefore(s.entries, s'.entries, i);
    assert EnvelopeOf(s', s.entries[i].event, s.entries[i].seqNo) == EnvelopeOf(s, s.entries[i].event, s.entries[i].seqNo);
  }

  lemma SameIdsBefore(a: seq<Entry>, b: seq<Entry>, i: nat)
    requires |a| == |b| && i <= |a| && forall k :: 0 <= k < |a| ==> a[k].event == b[k].event
    ensures EventIds(a[..i]) == EventIds(b[..i])
  {
    forall id ensures id in EventIds(a[..i]) <==> id in EventIds(b[..i]) {
      if id in EventIds(a[..i]) {
        var k :| 0 <= k < i && a[k].event.eventId == id;
        assert b[k] in b[..i];
      }
      if id in EventIds(b[..i]) {
        var k :| 0 <= k < i && b[k].event.eventId == id;
        assert a[k] in a[..i];
      }
    }
  }
}
