/** Reading the host's packet buffer page by page. */
module Paging {
  import opened Bytes
  import opened Wrappers

  const PACKET := 18

  datatype Page = Page(data: seq<byte>, tsMs: seq<nat>, nextPacketIndex: nat, availablePackets: nat)

  /** readSince: at most maxPackets whole packets from packetIndex on, with their timestamps. */
  method ReadSince(bytes: seq<byte>, timestamps: seq<nat>, packetIndex: nat, maxPackets: int) returns (page: Page)
    ensures page.availablePackets == |bytes| / 18
    ensures page.nextPacketIndex <= |bytes| / 18
    ensures packetIndex <= |bytes| / 18 ==>
      packetIndex <= page.nextPacketIndex
      && page.data == bytes[18 * packetIndex..18 * page.nextPacketIndex]
      && (|timestamps| == |bytes| / 18 ==> page.tsMs == timestamps[packetIndex..page.nextPacketIndex])
    ensures packetIndex < |bytes| / 18 && maxPackets > 0 ==> page.nextPacketIndex > packetIndex
    ensures page.nextPacketIndex <= packetIndex + if maxPackets > 0 then maxPackets else 0
  {
    var available := |bytes| / PACKET;
    if available == 0 || maxPackets <= 0 || packetIndex >= available {
      return Page([], [], Min(packetIndex, available), available);
    }
    var toRead := Min(maxPackets, available - packetIndex);
    var startByte := packetIndex * PACKET;
    var endByte := Min(|bytes|, startByte + toRead * PACKET);
    var data := if startByte < endByte then bytes[startByte..endByte] else [];
    var tsStart := packetIndex;
    var tsEnd := Min(|timestamps|, tsStart + toRead);
    var ts := if tsStart < tsEnd then timestamps[tsStart..tsEnd] else [];
    return Page(data, ts, packetIndex + toRead, available);
  }

  /** Following nextPacketIndex visits every whole packet exactly once, whatever the page sizes. */
  method ReadAll(bytes: seq<byte>, timestamps: seq<nat>, maxPackets: seq<nat>) returns (data: seq<byte>, ts: seq<nat>)
    requires |timestamps| == |bytes| / 18
    requires |maxPackets| >= |bytes| / 18 && forall i :: 0 <= i < |maxPackets| ==> maxPackets[i] > 0
    ensures data == bytes[..18 * (|bytes| / 18)] && ts == timestamps
  {
    data, ts := [], [];
    var next, calls := 0, 0;
    while next < |bytes| / PACKET
      invariant calls <= next <= |bytes| / PACKET
      invariant data == bytes[..PACKET * next] && ts == timestamps[..next]
      decreases |bytes| / PACKET - next
    {
      var page := ReadSince(bytes, timestamps, next, maxPackets[calls]);
      assert bytes[..PACKET * page.nextPacketIndex] == bytes[..PACKET * next] + page.data;
      data, ts := data + page.data, ts + page.tsMs;
      next, calls := page.nextPacketIndex, calls + 1;
    }
  }
}
