/** From an empty device to a mounted filesystem. */
module Ext2Format {
  import opened FsErrors
  import opened BlockBitmap
  import opened BlockTree
  import opened Format
  import opened Ext2Files

  /** Formatting and mounting: whenever the options are accepted, the result satisfies the
      filesystem's whole invariant, with exactly the metadata in use. */
  method FormatAndMount(disk: Disk, sectors: nat, bs: nat, bytesPerInode: nat) returns (r: Result<Ext2>)
    requires 4 * disk.ppb == bs && forall b <- disk.blocks :: |b| == bs
    requires BlockSizeOk(bs) ==> |disk.blocks| >= TotalBlocks(bs, sectors)
    ensures r.Err? ==> r == Err(Invalid)
    ensures r.Ok? <==>
      && BlockSizeOk(bs) && FirstData(bs) + 64 <= TotalBlocks(bs, sectors)
      && FirstGroupFits(bs, Planned(bs, TotalBlocks(bs, sectors) - FirstData(bs), bytesPerInode))
    ensures r.Ok? ==> var l := Planned(bs, TotalBlocks(bs, sectors) - FirstData(bs), bytesPerInode);
      fresh(r.value) && r.value.Valid() && r.value.geo == GeometryOf(bs, l) && r.value.used == r.value.meta == Metadata(bs, l)
  {
    hide Settled, FirstGroupFits, GroupsDone, BitmapsOk, Metadata, Mount, SuperOf, Div, Planned, MetaBlocks;
    var done := FormatGroups(sectors, bs, bytesPerInode);
    if done.Err? { return Err(Invalid); }
    var l, gs := done.value.0, done.value.1;
    var geo := Mount(SuperOf(bs, l, gs), sectors).value;
    SettledCounts(bs, TotalBlocks(bs, sectors), l);
    BlockZeroTaken(bs, l);
    var fs := new Ext2(geo, disk.(blocks := disk.blocks[..geo.blocksCount]), l.groups * l.ipg, gs.bitmaps, gs.freeBlocks, gs.totalBlocks, Metadata(bs, l));
    r := Ok(fs);
  }

  lemma SettledCounts(bs: nat, total: nat, l: Layout)
    requires Settled(bs, total, l)
    ensures l.groups > 0 && l.usable > 0 && FirstData(bs) + l.usable <= total
  {
    hide Sparse, MetaBlocks;
    assert (l.groups - 1) * Bpg(bs) >= 0;
  }
}
