/** From the sender's file to the flash: the calls iot_xmodem_update_fw makes of spi_flash_update_fw. */
module FirmwareFlash {
  import opened Octets
  import opened Prelude
  import opened SpiFlash
  import Xmodem
  import Link = XmodemLink

  /** The flash after the calls of spi_flash_update_fw a receiver has made. */
  function Flashed(m: seq<bv8>, writes: seq<Xmodem.Write>): (r: seq<bv8>)
    ensures |r| == |m|
  {
    if writes == [] then m
    else
      var w := writes[|writes| - 1];
      FlashOne(Flashed(m, writes[..|writes| - 1]), w.kind, w.offset, w.data)
  }

  lemma FlashedLater(m: seq<bv8>, writes: seq<Xmodem.Write>, kind: byte, start: nat, size: nat, image: seq<bv8>)
    requires writes != [] && Region(kind) == Some((start, size))
    requires var w := writes[|writes| - 1]; w.kind == kind && w.offset == |image| > 0 && |w.data| <= RAM_RW_BUF_SIZE
    requires Flashed(m, writes[..|writes| - 1]) == Programmed(RegionErased(m, start, size), start, image)
    ensures Flashed(m, writes) == Programmed(RegionErased(m, start, size), start, image + writes[|writes| - 1].data)
  {
    hide Programmed, RegionErased, Region;
    ProgrammedAppend(RegionErased(m, start, size), start, image, writes[|writes| - 1].data);
  }

  /** The calls for the first `k` blocks program the payload behind one erasure of the region. */
  lemma {:induction false} FlashedWrites(blocks: seq<seq<bv8>>, k: nat, m: seq<bv8>, start: nat, size: nat)
    requires Link.Fits(blocks) && 2 <= k <= |blocks| && Link.UpgOf(blocks[0]) > 0
    requires Region(Link.KindOf(blocks[0])) == Some((start, size))
    ensures Flashed(m, Link.Writes(blocks, k))
         == Programmed(RegionErased(m, start, size), start, Link.Contents(Link.Writes(blocks, k)))
    ensures |Link.Contents(Link.Writes(blocks, k))| == Min((k - 1) * Xmodem.BLOCK, Link.UpgOf(blocks[0]))
  {
    hide Region, Programmed, RegionErased, Link.UpgOf, Link.KindOf;
    var left := Link.UpgOf(blocks[0]) - (k - 2) * Xmodem.BLOCK;
    if k == 2 {
      FlashedFirst(blocks, m, start, size);
    } else {
      FlashedWrites(blocks, k - 1, m, start, size);
      if left > 0 {
        Link.ContentsStep(blocks, k);
        var ws := Link.Writes(blocks, k);
        assert ws[..|ws| - 1] == Link.Writes(blocks, k - 1);
        FlashedLater(m, ws, Link.KindOf(blocks[0]), start, size, Link.Contents(Link.Writes(blocks, k - 1)));
      }
    }
  }

  lemma FlashedFirst(blocks: seq<seq<bv8>>, m: seq<bv8>, start: nat, size: nat)
    requires Link.Fits(blocks) && 2 <= |blocks| && Link.UpgOf(blocks[0]) > 0
    requires Region(Link.KindOf(blocks[0])) == Some((start, size))
    ensures Flashed(m, Link.Writes(blocks, 2))
         == Programmed(RegionErased(m, start, size), start, Link.Contents(Link.Writes(blocks, 2)))
    ensures |Link.Contents(Link.Writes(blocks, 2))| == Min(Xmodem.BLOCK, Link.UpgOf(blocks[0]))
  {
    hide Region, Programmed, RegionErased, Link.UpgOf, Link.KindOf;
    Link.ContentsStep(blocks, 2);
    var ws := Link.Writes(blocks, 2);
    assert ws[..|ws| - 1] == Link.Writes(blocks, 1) == [];
    assert [] + ws[0].data == ws[0].data;
  }

  /** In every run, whatever the link does: once a block behind the header has been accepted the region holds the
      file's first octets as far as they fit, what does not fit is only programmed over what was there, and the rest
      of the flash is as before. */
  lemma UploadedImage(stream: seq<bv8>, events: seq<Link.Event>, m: seq<bv8>, start: nat, size: nat, i: nat)
    requires Xmodem.Blocks(stream) != [] && Link.Fits(Xmodem.Blocks(stream)) && Link.UpgOf(Xmodem.Blocks(stream)[0]) > 0
    requires Region(Link.KindOf(Xmodem.Blocks(stream)[0])) == Some((start, size)) && i < |m|
    requires Link.Run(Xmodem.Blocks(stream), Link.INITIAL, events).accepted >= 2
    ensures var s := Link.Run(Xmodem.Blocks(stream), Link.INITIAL, events);
            var n := Min((s.accepted - 1) * Xmodem.BLOCK, Link.UpgOf(Xmodem.Blocks(stream)[0]));
            Xmodem.BLOCK + n <= |stream| ==>
              Flashed(m, s.recv.flash)[i]
              == if start <= i < start + n then
                   (if i < start + size then stream[Xmodem.BLOCK + i - start]
                    else AndByte(m[i], stream[Xmodem.BLOCK + i - start]))
                 else if start <= i < start + size then ERASED else m[i]
  {
    hide Region, AndByte, Link.UpgOf, Link.KindOf, Xmodem.Blocks, Link.Run, Link.Payload, Link.Writes,
      Link.Contents, Flashed;
    var blocks := Xmodem.Blocks(stream);
    var s := Link.Run(blocks, Link.INITIAL, events);
    Link.UploadIsSafe(stream, events);
    FlashedWrites(blocks, s.accepted, m, start, size);
    var n := Min((s.accepted - 1) * Xmodem.BLOCK, Link.UpgOf(blocks[0]));
    if Xmodem.BLOCK + n <= |stream| && start <= i < start + n {
      AndErased(stream[Xmodem.BLOCK + i - start]);
    }
  }

  /** The regions of flash_map.h by upgrade type: loader, recovery firmware, station firmware and its second part,
      access point firmware and its second part. */
  const REGIONS: set<(int, nat, nat)> := {
    (1, 0x0, 0x5000), (2, 0x6000, 0x10000), (4, 0x1F000, 0x49000),
    (5, 0x30000, 0x38000), (6, 0x69000, 0x49000), (7, 0x7A000, 0x38000)}

  lemma RegionsAre(t: byte, start: nat, size: nat)
    ensures (t, start, size) in REGIONS <==> Region(t) == Some((start, size))
  {
  }

  /** The same for the octets of a file: its header announces `n` octets of type `t`. */
  lemma AnnouncedImage(stream: seq<bv8>, events: seq<Link.Event>, m: seq<bv8>, n: nat, t: byte, start: nat, size: nat,
                       i: nat)
    requires 8 <= |stream| && |Xmodem.Blocks(stream)| <= 0xFFFF && 0 < n < 0x8000_0000 && i < |m|
    requires stream[..3] == [0x76, 0x81, 0xAA] && Link.LengthAt(stream, 3, n) && Value(stream[7]) == t
    requires (t, start, size) in REGIONS
    requires Link.Run(Xmodem.Blocks(stream), Link.INITIAL, events).accepted >= 2
    ensures var k := Min((Link.Run(Xmodem.Blocks(stream), Link.INITIAL, events).accepted - 1) * 128, n);
            128 + k <= |stream| ==>
              Flashed(m, Link.Run(Xmodem.Blocks(stream), Link.INITIAL, events).recv.flash)[i]
              == if start <= i < start + k then
                   (if i < start + size then stream[128 + i - start] else AndByte(m[i], stream[128 + i - start]))
                 else if start <= i < start + size then 0xFF else m[i]
  {
    hide Region, AndByte, Link.UpgOf, Link.KindOf, Xmodem.Blocks, Link.Run, Flashed, Value;
    Link.AnnouncedBlocks(stream, n, t);
    RegionsAre(t, start, size);
    UploadedImage(stream, events, m, start, size, i);
  }
}
