/** How uploads that time out leave behind what deceives a later one. */
module OtaRetries {
  import opened Protocol
  import opened Crc32
  import opened OtaSenders
  import opened NodeOta
  import opened HostOta
  import opened OtaHistory
  import opened OtaSession
  import opened OtaOutcomes

  function PacketsOf(down: seq<Wired>): seq<Packet> {
    seq(|down|, k requires 0 <= k < |down| => down[k].packet)
  }

  /** What a session leaves to the next one. */
  function Leaves(t: Session): Origin {
    Origin(t.node, t.up, PacketsOf(t.down))
  }

  /** One upload after another, each from what the one before left. */
  ghost predicate Follows(ps: seq<Packet>, from: Origin, t: Session)
    requires |ps| >= 2
  {
    Leads(ps, Start(ps, from), t) && t.host.phase.Finished?
  }

  /** An upload whose first wait expires after the node answered. Its retry is a clean start. */
  lemma BeginTimesOut(ps: seq<Packet>, crc: bv32, image: seq<byte>, node: Ota) returns (t: Session)
    requires IsUpload(ps, crc, image)
    ensures Follows(ps, Origin(node, [], []), t) && t.host.phase == Finished(false)
    ensures t.down == [] && t.up == [STATUS_IN_PROGRESS] && t.node.active && Clean(crc, t.node, t.up)
  {
    var from := Origin(node, [], []);
    var waiting := EarlyHappens(ps, from, [WELL]);
    BeginFed(node, ps[0]);
    assert [WELL][..0] == [];
    LeadsByOne(ps, Start(ps, from), waiting, WaitExpires);
    t := Next(ps, waiting, WaitExpires);
  }

  function AllKept(n: nat): (keep: seq<bool>)
    ensures |keep| == n && forall k :: 0 <= k < n ==> keep[k]
  {
    seq(n, _ => true)
  }

  lemma {:induction false} PickedAll(image: seq<byte>, keep: seq<bool>)
    requires |keep| <= ChunkCount(|image|) && forall k :: 0 <= k < |keep| ==> keep[k]
    ensures Picked(image, keep) == image[..Reach(|image|, |keep|)]
  {
    ImageGrows(image, 0);
    if keep != [] {
      PickedAll(image, keep[..|keep| - 1]);
      ImageGrows(image, |keep|);
    }
  }

  /** A node that is given the whole transfer commits the image. */
  lemma WholeFed(ps: seq<Packet>, crc: bv32, image: seq<byte>, o: Ota) returns (fates: seq<Fate>)
    requires IsUpload(ps, crc, image) && |image| <= CAPACITY && Passes(crc, image)
    ensures |fates| == |ps|
    ensures var h := Fed(o, ps, fates); h.commits == [image] && h.statuses == [STATUS_IN_PROGRESS, STATUS_OK]
  {
    var keep := AllKept(ChunkCount(|image|));
    PickedAll(image, keep);
    ImageGrows(image, 0);
    assert image == [] + Picked(image, keep);
    BeginFed(o, ps[0]);
    fates := CommittableFed(ps, crc, image, o, WELL, [], crc, image, [STATUS_IN_PROGRESS]);
  }

  /** The host takes the old answer, the node does all it is told, and the second wait expires. */
  lemma EndTimesOut(ps: seq<Packet>, crc: bv32, image: seq<byte>, node: Ota) returns (t: Session)
    requires IsUpload(ps, crc, image) && |image| <= CAPACITY && Passes(crc, image)
    ensures Follows(ps, Origin(node, [STATUS_IN_PROGRESS], []), t) && t.host.phase == Finished(false)
    ensures t.up == [STATUS_IN_PROGRESS, STATUS_OK]
  {
    var from := Origin(node, [STATUS_IN_PROGRESS], []);
    var fates := WholeFed(ps, crc, image, node);
    assert Commands(ps, from) == ps;
    var waiting := GoesOn(ps, from, fates, 0);
    LeadsByOne(ps, Start(ps, from), waiting, WaitExpires);
    t := Next(ps, waiting, WaitExpires);
  }

  /** The host takes the old answer, and the second wait expires before the node took anything. */
  lemma NothingTaken(ps: seq<Packet>, node: Ota) returns (t: Session)
    requires |ps| >= 2
    ensures Follows(ps, Origin(node, [STATUS_IN_PROGRESS], []), t) && t.host.phase == Finished(false)
    ensures t.up == [] && PacketsOf(t.down) == ps && t.commits == []
  {
    var from := Origin(node, [STATUS_IN_PROGRESS], []);
    var waiting := HostGoesOn(ps, from, [], 0);
    LeadsByOne(ps, Start(ps, from), waiting, WaitExpires);
    t := Next(ps, waiting, WaitExpires);
    assert ([] + [ps[0]])[0..] + ps[1..] == ps;
  }

  /** From an idle node and empty channels: an upload and its retry both time out, and then the
      upload of any firmware whatever can be reported a success with nothing committed. */
  lemma RetriesCanDeceive(image: seq<byte>, other: seq<byte>) returns (first: Session, second: Session, third: Session)
    requires |image| <= CAPACITY && |other| < 0x1_0000_0000
    ensures Follows(OtaPackets(image), Origin(IDLE, [], []), first) && first.host.phase == Finished(false)
    ensures Follows(OtaPackets(image), Leaves(first), second) && second.host.phase == Finished(false)
    ensures Follows(OtaPackets(other), Leaves(second), third)
    ensures third.host.phase == Finished(true) && third.commits == []
  {
    OtaPacketsIsUpload(image);
    OtaPacketsIsUpload(other);
    first := BeginTimesOut(OtaPackets(image), Crc(image), image, IDLE);
    assert Leaves(first) == Origin(first.node, [STATUS_IN_PROGRESS], []);
    second := EndTimesOut(OtaPackets(image), Crc(image), image, first.node);
    assert second.up[0] == STATUS_IN_PROGRESS && second.up[1] == STATUS_OK;
    third := FakeSuccess(OtaPackets(other), Crc(other), other, Leaves(second));
  }

  /** What is left of an upload on its way down, taken while another one waits for answers. */
  lemma OlderUploadTaken(qs: seq<Packet>, other: seq<byte>, x: bv32, ps: seq<Packet>, image: seq<byte>, crc: bv32,
                         node: Ota)
      returns (t: Session)
    requires IsUpload(qs, x, other) && IsUpload(ps, crc, image) && |image| <= CAPACITY && Passes(crc, image)
    ensures Follows(qs, Origin(node, [], ps), t) && t.host.phase == Finished(true) && t.commits == [image]
  {
    var from := Origin(node, [], ps);
    var fates := WholeFed(ps, crc, image, node);
    assert Commands(qs, from)[..|ps|] == ps && ps[..|ps|] == ps;
    FedSame(node, Commands(qs, from), ps, fates);
    var statuses := [STATUS_IN_PROGRESS, STATUS_OK];
    assert statuses[0] == STATUS_IN_PROGRESS && statuses[1] == STATUS_OK && [] + statuses == statuses;
    t := SuccessHappens(qs, x, other, from, fates);
  }

  /** From an idle node and empty channels: an upload times out, and so does its retry before the
      node has taken a single packet of it. The status channel is empty then, and yet the upload
      of another firmware can be reported a success with the first one committed in its place. */
  lemma OlderCommandsDeceive(image: seq<byte>, other: seq<byte>)
      returns (first: Session, second: Session, third: Session)
    requires |image| <= CAPACITY && |other| < 0x1_0000_0000
    ensures Follows(OtaPackets(image), Origin(IDLE, [], []), first) && first.host.phase == Finished(false)
    ensures Follows(OtaPackets(image), Leaves(first), second) && second.host.phase == Finished(false)
    ensures second.up == [] && Clean(Crc(other), second.node, second.up) && second.commits == []
    ensures Follows(OtaPackets(other), Leaves(second), third)
    ensures third.host.phase == Finished(true) && third.commits == [image]
  {
    OtaPacketsIsUpload(image);
    OtaPacketsIsUpload(other);
    first := BeginTimesOut(OtaPackets(image), Crc(image), image, IDLE);
    assert Leaves(first) == Origin(first.node, [STATUS_IN_PROGRESS], []);
    second := NothingTaken(OtaPackets(image), first.node);
    third := OlderUploadTaken(OtaPackets(other), other, Crc(other), OtaPackets(image), image, Crc(image), second.node);
  }
}
