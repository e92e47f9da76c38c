/** Per-tile DMA channel allocation (DMAChannelAnalysis): two master (send)
    and two slave (receive) channels per tile, counted independently. */
module DmaChannels {
  import opened Common

  /** MM2S channels read memory and send onto the stream (master); S2MM
      channels receive from the stream into memory (slave). */
  datatype DmaChan = MM2S0 | MM2S1 | S2MM0 | S2MM1

  predicate IsMaster(c: DmaChan) {
    c == MM2S0 || c == MM2S1
  }

  /** The channel of the given direction with the given port number. */
  function ChannelOf(master: bool, port: nat): DmaChan
    requires port < 2
  {
    if master then (if port == 0 then MM2S0 else MM2S1)
    else (if port == 0 then S2MM0 else S2MM1)
  }

  /** channelToPortNum: the port number of a channel; together with its
      direction it names the channel again. */
  function ChannelToPortNum(c: DmaChan): (r: nat)
    ensures r < 2 && ChannelOf(IsMaster(c), r) == c
  {
    match c
    case MM2S0 => 0
    case MM2S1 => 1
    case S2MM0 => 0
    case S2MM1 => 1
  }

  /** How many channels of a direction a tile uses, given the per-tile
      counter map: absent means none, 0 means one, 1 means two. */
  function InUse(counts: map<Tile, int>, tile: Tile): int {
    if tile in counts then counts[tile] + 1 else 0
  }

  class DmaChannelAnalysis {
    var master: map<Tile, int>
    var slave: map<Tile, int>

    /** Each tile's counters record at most two channels per direction. */
    ghost predicate Valid()
      reads this
    {
      (forall t :: t in master ==> 0 <= master[t] <= 1) &&
      (forall t :: t in slave ==> 0 <= slave[t] <= 1)
    }

    constructor ()
      ensures Valid() && master == map[] && slave == map[]
    {
      master := map[];
      slave := map[];
    }

    /** Registers the DMA starts that already exist in the module, in order;
        false is the fatal "all channels in use" assertion, which fires
        exactly when some tile has more than two starts in one direction. */
    method RegisterExisting(starts: seq<(Tile, bool)>) returns (ok: bool)
      requires Valid()
      modifies this
      ensures Valid()
      ensures ok <==> StartsFit(old(master), starts, true) && StartsFit(old(slave), starts, false)
      ensures ok ==> forall t :: InUse(master, t) == InUse(old(master), t) + |StartsOn(starts, t, true)|
      ensures ok ==> forall t :: InUse(slave, t) == InUse(old(slave), t) + |StartsOn(starts, t, false)|
    {
      for k := 0 to |starts|
        invariant Valid()
        invariant forall t :: InUse(master, t) == InUse(old(master), t) + |StartsOn(starts[..k], t, true)|
        invariant forall t :: InUse(slave, t) == InUse(old(slave), t) + |StartsOn(starts[..k], t, false)|
      {
        ghost var master0, slave0 := master, slave;
        var ch: Option<DmaChan>;
        if starts[k].1 {
          ch := GetMasterDmaChannel(starts[k].0);
        } else {
          ch := GetSlaveDmaChannel(starts[k].0);
        }
        assert starts[..k + 1] == starts[..k] + [starts[k]];
        if ch.None? {
          if starts[k].1 {
            StartsOverflow(old(master), master, starts, k);
          } else {
            StartsOverflow(old(slave), slave, starts, k);
          }
          return false;
        }
        CountsStep(old(master), master0, master, starts[..k], starts[k], true);
        CountsStep(old(slave), slave0, slave, starts[..k], starts[k], false);
      }
      assert starts[..|starts|] == starts;
      StartsWithin(old(master), master, starts, true);
      StartsWithin(old(slave), slave, starts, false);
      return true;
    }

    /** getMasterDMAChannel: the first request on a tile yields MM2S0, the
        second MM2S1; a third is the fatal assertion (None, nothing changes).
        Slave counters and other tiles are untouched. */
    method GetMasterDmaChannel(tile: Tile) returns (ch: Option<DmaChan>)
      requires Valid()
      modifies this
      ensures Valid() && slave == old(slave)
      ensures ch.Some? <==> old(InUse(master, tile)) < 2
      ensures ch.Some? ==> IsMaster(ch.value) && ChannelToPortNum(ch.value) == old(InUse(master, tile))
      ensures ch.Some? ==> master == old(master)[tile := old(InUse(master, tile))]
      ensures ch.None? ==> master == old(master)
    {
      if tile !in master {
        master := master[tile := 0];
        return Some(MM2S0);
      } else {
        if !(master[tile] < 1) {
          return None;
        }
        master := master[tile := master[tile] + 1];
        return Some(MM2S1);
      }
    }

    /** getSlaveDMAChannel: S2MM0, then S2MM1, then the fatal assertion. */
    method GetSlaveDmaChannel(tile: Tile) returns (ch: Option<DmaChan>)
      requires Valid()
      modifies this
      ensures Valid() && master == old(master)
      ensures ch.Some? <==> old(InUse(slave, tile)) < 2
      ensures ch.Some? ==> !IsMaster(ch.value) && ChannelToPortNum(ch.value) == old(InUse(slave, tile))
      ensures ch.Some? ==> slave == old(slave)[tile := old(InUse(slave, tile))]
      ensures ch.None? ==> slave == old(slave)
    {
      if tile !in slave {
        slave := slave[tile := 0];
        return Some(S2MM0);
      } else {
        if !(slave[tile] < 1) {
          return None;
        }
        slave := slave[tile := slave[tile] + 1];
        return Some(S2MM1);
      }
    }
  }

  /** Every tile has at most two channels of a direction in use once the
      starts are added to the counts. */
  ghost predicate StartsFit(counts: map<Tile, int>, starts: seq<(Tile, bool)>, send: bool) {
    forall t :: InUse(counts, t) + |StartsOn(starts, t, send)| <= 2
  }

  /** The DMA starts of a given tile and direction. */
  function StartsOn(starts: seq<(Tile, bool)>, tile: Tile, send: bool): seq<(Tile, bool)> {
    if starts == [] then []
    else StartsOn(starts[..|starts| - 1], tile, send)
         + (if starts[|starts| - 1] == (tile, send) then [starts[|starts| - 1]] else [])
  }

  /** Registering one more start keeps each tile's count equal to the
      count before plus its starts so far, in the start's direction. */
  lemma CountsStep(before: map<Tile, int>, now: map<Tile, int>, now': map<Tile, int>,
                   prefix: seq<(Tile, bool)>, s: (Tile, bool), send: bool)
    requires forall t :: InUse(now, t) == InUse(before, t) + |StartsOn(prefix, t, send)|
    requires s.1 == send ==> now' == now[s.0 := InUse(now, s.0)]
    requires s.1 != send ==> now' == now
    ensures forall t :: InUse(now', t) == InUse(before, t) + |StartsOn(prefix + [s], t, send)|
  {
    StartsOnSnoc(prefix, s);
  }

  lemma StartsOnSnoc(starts: seq<(Tile, bool)>, s: (Tile, bool))
    ensures forall t, b :: StartsOn(starts + [s], t, b) == StartsOn(starts, t, b) + (if s == (t, b) then [s] else [])
  {
    assert (starts + [s])[..|starts|] == starts;
  }

  lemma StartsOnPrefix(starts: seq<(Tile, bool)>, k: nat, t: Tile, send: bool)
    requires k <= |starts|
    ensures |StartsOn(starts[..k], t, send)| <= |StartsOn(starts, t, send)|
    decreases |starts| - k
  {
    if k < |starts| {
      StartsOnSnoc(starts[..k], starts[k]);
      assert starts[..k + 1] == starts[..k] + [starts[k]];
      StartsOnPrefix(starts, k + 1, t, send);
    } else {
      assert starts[..k] == starts;
    }
  }

  /** A start that finds both channels of its direction taken means its
      tile has more than two starts in that direction. */
  lemma StartsOverflow(before: map<Tile, int>, now: map<Tile, int>, starts: seq<(Tile, bool)>, k: nat)
    requires k < |starts|
    requires forall t :: InUse(now, t) == InUse(before, t) + |StartsOn(starts[..k], t, starts[k].1)|
    requires InUse(now, starts[k].0) >= 2
    ensures !StartsFit(before, starts, starts[k].1)
  {
    StartsOnSnoc(starts[..k], starts[k]);
    assert starts[..k + 1] == starts[..k] + [starts[k]];
    StartsOnPrefix(starts, k + 1, starts[k].0, starts[k].1);
  }

  /** Counts that stay within two after all the starts mean they fit. */
  lemma StartsWithin(before: map<Tile, int>, now: map<Tile, int>, starts: seq<(Tile, bool)>, send: bool)
    requires forall t :: InUse(now, t) == InUse(before, t) + |StartsOn(starts, t, send)|
    requires forall t :: t in now ==> 0 <= now[t] <= 1
    ensures StartsFit(before, starts, send)
  {
    forall t
      ensures InUse(before, t) + |StartsOn(starts, t, send)| <= 2
    {
      assert InUse(now, t) <= 2;
    }
  }
}
