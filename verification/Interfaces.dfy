/** The state the driver derives from its interfaces: hardware address, BSSID mask and operating
mode (`ath9k_vif_iter`, `ath9k_calculate_iter_data`, `ath9k_calculate_summary_state`). */
module Interfaces {
  import opened Common

  const ETH_ALEN: nat := 6

  datatype Kind = AccessPoint | Station | Adhoc | MeshPoint | Wds | Other

  /** A byte, bit by bit. */
  type Byte = s: seq<bool> | |s| == 8 witness ZERO
  const ZERO: seq<bool> := [false, false, false, false, false, false, false, false]
  const FULL: seq<bool> := [true, true, true, true, true, true, true, true]

  type Mac = s: seq<Byte> | |s| == ETH_ALEN witness [ZERO, ZERO, ZERO, ZERO, ZERO, ZERO]

  datatype Vif = Vif(addr: Mac, kind: Kind)

  datatype Data = Data(
    hasAddr: bool,
    hwAddr: Mac,
    mask: Mac,
    naps: nat,
    nstations: nat,
    nadhocs: nat,
    nmeshes: nat,
    nwds: nat)

  function And(a: Byte, b: Byte): Byte { seq(8, i requires 0 <= i < 8 => a[i] && b[i]) }
  function Xor(a: Byte, b: Byte): Byte { seq(8, i requires 0 <= i < 8 => a[i] != b[i]) }
  function Not(a: Byte): Byte { seq(8, i requires 0 <= i < 8 => !a[i]) }

  /** Keep the bits in which two addresses agree. */
  function Narrow(mask: Byte, a: Byte, b: Byte): Byte { And(mask, Not(Xor(a, b))) }

  function NarrowAll(mask: Mac, a: Mac, b: Mac): Mac {
    seq(ETH_ALEN, i requires 0 <= i < ETH_ALEN => Narrow(mask[i], a[i], b[i]))
  }

  const EMPTY: Data := Data(false, [ZERO, ZERO, ZERO, ZERO, ZERO, ZERO], [FULL, FULL, FULL, FULL, FULL, FULL], 0, 0, 0, 0, 0)

  function Tally(d: Data, kind: Kind): Data {
    match kind
    case AccessPoint => d.(naps := d.naps + 1)
    case Station => d.(nstations := d.nstations + 1)
    case Adhoc => d.(nadhocs := d.nadhocs + 1)
    case MeshPoint => d.(nmeshes := d.nmeshes + 1)
    case Wds => d.(nwds := d.nwds + 1)
    case Other => d
  }

  /** `ath9k_vif_iter`. */
  function Visit(d: Data, v: Vif): Data {
    Tally(if d.hasAddr then d.(mask := NarrowAll(d.mask, d.hwAddr, v.addr))
          else d.(hwAddr := v.addr, hasAddr := true), v.kind)
  }

  /** The interfaces in the order they are visited. */
  function Collect(vs: seq<Vif>): Data {
    if vs == [] then EMPTY else Visit(Collect(vs[..|vs| - 1]), vs[|vs| - 1])
  }

  function Visited(vif: Option<Vif>, active: seq<Vif>): seq<Vif> {
    (if vif.Some? then [vif.value] else []) + active
  }

  datatype Mode = ModeAp | ModeMesh | ModeAdhoc | ModeStation

  function OpMode(d: Data): Mode {
    if d.naps > 0 then ModeAp
    else if d.nmeshes > 0 then ModeMesh
    else if d.nwds > 0 then ModeAp
    else if d.nadhocs > 0 then ModeAdhoc
    else ModeStation
  }

  /** The TSF out-of-range interrupt is wanted. */
  function TsfInterrupt(d: Data): bool {
    d.nstations + d.nadhocs + d.nmeshes > 0
  }

  // ---------- The mask ----------

  /** `m` selects no bit outside `mask`. */
  ghost predicate Within(m: Byte, mask: Byte) {
    forall b :: 0 <= b < 8 && m[b] ==> mask[b]
  }

  /** Two bytes agree in the bits `m` selects. */
  ghost predicate Alike(x: Byte, y: Byte, m: Byte) {
    forall b :: 0 <= b < 8 && m[b] ==> x[b] == y[b]
  }

  /** Under the bits `m` of byte `i`, all addresses agree. */
  ghost predicate Agree(vs: seq<Vif>, i: nat, m: Byte)
    requires i < ETH_ALEN
  {
    forall j, k :: 0 <= j < |vs| && 0 <= k < |vs| ==> Alike(vs[j].addr[i], vs[k].addr[i], m)
  }

  lemma NarrowWithin(m: Byte, mask: Byte, x: Byte, y: Byte)
    ensures Within(m, Narrow(mask, x, y)) <==> Within(m, mask) && Alike(x, y, m)
  {
    assert forall b :: 0 <= b < 8 ==> Narrow(mask, x, y)[b] == (mask[b] && x[b] == y[b]);
  }

  lemma {:induction false} HardwareAddress(vs: seq<Vif>)
    ensures Collect(vs).hasAddr <==> vs != []
    ensures vs != [] ==> Collect(vs).hwAddr == vs[0].addr
  {
    if |vs| > 0 { HardwareAddress(vs[..|vs| - 1]); }
  }

  lemma {:induction false} MaskAgainstFirst(vs: seq<Vif>, i: nat, m: Byte)
    requires i < ETH_ALEN
    ensures Within(m, Collect(vs).mask[i]) <==> forall j :: 0 <= j < |vs| ==> Alike(vs[0].addr[i], vs[j].addr[i], m)
  {
    if |vs| <= 1 {
      if |vs| == 1 { HardwareAddress(vs[..0]); }
      assert Collect(vs).mask == EMPTY.mask;
    } else {
      var init, v := vs[..|vs| - 1], vs[|vs| - 1];
      MaskAgainstFirst(init, i, m);
      HardwareAddress(init);
      NarrowWithin(m, Collect(init).mask[i], vs[0].addr[i], v.addr[i]);
      assert Collect(vs).mask[i] == Narrow(Collect(init).mask[i], vs[0].addr[i], v.addr[i]);
      assert forall j :: 0 <= j < |init| ==> init[j] == vs[j];
    }
  }

  /** The mask is the largest one under which all addresses agree: a set of bits lies within it
      exactly when all addresses agree on those bits. */
  lemma MaskIsLargest(vs: seq<Vif>, i: nat, m: Byte)
    requires i < ETH_ALEN
    ensures Within(m, Collect(vs).mask[i]) <==> Agree(vs, i, m)
  {
    MaskAgainstFirst(vs, i, m);
    if Within(m, Collect(vs).mask[i]) {
      forall j, k | 0 <= j < |vs| && 0 <= k < |vs| ensures Alike(vs[j].addr[i], vs[k].addr[i], m) {
        assert Alike(vs[0].addr[i], vs[j].addr[i], m) && Alike(vs[0].addr[i], vs[k].addr[i], m);
      }
    }
  }

  // ---------- Order and repetition ----------

  /** The same interfaces, in any order and any number of times each. */
  ghost predicate SameInterfaces(vs: seq<Vif>, ws: seq<Vif>) {
    forall v :: v in vs <==> v in ws
  }

  lemma AgreeBySet(vs: seq<Vif>, ws: seq<Vif>, i: nat, m: Byte)
    requires i < ETH_ALEN && SameInterfaces(vs, ws) && Agree(vs, i, m)
    ensures Agree(ws, i, m)
  {
    forall j, k | 0 <= j < |ws| && 0 <= k < |ws| ensures Alike(ws[j].addr[i], ws[k].addr[i], m) {
      assert ws[j] in vs && ws[k] in vs;
      var j' :| 0 <= j' < |vs| && vs[j'] == ws[j];
      var k' :| 0 <= k' < |vs| && vs[k'] == ws[k];
    }
  }

  ghost predicate Has(vs: seq<Vif>, kind: Kind) {
    exists j :: 0 <= j < |vs| && vs[j].kind == kind
  }

  ghost function CountOf(vs: seq<Vif>, kind: Kind): nat {
    if vs == [] then 0 else CountOf(vs[..|vs| - 1], kind) + if vs[|vs| - 1].kind == kind then 1 else 0
  }

  lemma {:induction false} CountShows(vs: seq<Vif>, kind: Kind)
    ensures CountOf(vs, kind) > 0 <==> Has(vs, kind)
  {
    if vs != [] {
      CountShows(vs[..|vs| - 1], kind);
      HasLast(vs, kind);
    }
  }

  /** Each counter is the number of interfaces of its type. */
  lemma {:induction false} CountsAreRight(vs: seq<Vif>)
    ensures var d := Collect(vs);
            && d.naps == CountOf(vs, AccessPoint) && d.nstations == CountOf(vs, Station)
            && d.nadhocs == CountOf(vs, Adhoc) && d.nmeshes == CountOf(vs, MeshPoint)
            && d.nwds == CountOf(vs, Wds)
  {
    if vs != [] { CountsAreRight(vs[..|vs| - 1]); }
  }

  lemma CountsShowPresence(vs: seq<Vif>)
    ensures var d := Collect(vs);
            && (d.naps > 0 <==> Has(vs, AccessPoint)) && (d.nstations > 0 <==> Has(vs, Station))
            && (d.nadhocs > 0 <==> Has(vs, Adhoc)) && (d.nmeshes > 0 <==> Has(vs, MeshPoint))
            && (d.nwds > 0 <==> Has(vs, Wds))
  {
    CountsAreRight(vs);
    forall kind ensures CountOf(vs, kind) > 0 <==> Has(vs, kind) { CountShows(vs, kind); }
  }

  /** Operating mode and interrupt choice by the types of the interfaces: an access point decides,
      then a mesh point, then WDS, which runs as an access point, then ad hoc. */
  ghost predicate Decided(vs: seq<Vif>, mode: Mode, tsf: bool) {
    && (mode == ModeAp <==> Has(vs, AccessPoint) || (Has(vs, Wds) && !Has(vs, MeshPoint)))
    && (mode == ModeMesh <==> Has(vs, MeshPoint) && !Has(vs, AccessPoint))
    && (mode == ModeAdhoc <==> Has(vs, Adhoc) && !Has(vs, AccessPoint) && !Has(vs, MeshPoint) && !Has(vs, Wds))
    && (mode == ModeStation <==> forall v :: v in vs ==> v.kind == Station || v.kind == Other)
    && (tsf <==> Has(vs, Station) || Has(vs, Adhoc) || Has(vs, MeshPoint))
  }

  lemma TypesDecide(vs: seq<Vif>)
    ensures Decided(vs, OpMode(Collect(vs)), TsfInterrupt(Collect(vs)))
  {
    CountsShowPresence(vs);
    hide Collect;
    forall v | v in vs ensures Has(vs, v.kind) {
      var j :| 0 <= j < |vs| && vs[j] == v;
    }
    forall j | 0 <= j < |vs| ensures vs[j] in vs {}
  }

  lemma HasLast(vs: seq<Vif>, kind: Kind)
    requires vs != []
    ensures Has(vs, kind) <==> Has(vs[..|vs| - 1], kind) || vs[|vs| - 1].kind == kind
  {
    var init := vs[..|vs| - 1];
    if Has(init, kind) {
      var j :| 0 <= j < |init| && init[j].kind == kind;
      assert vs[j].kind == kind;
    }
    if Has(vs, kind) && vs[|vs| - 1].kind != kind {
      var j :| 0 <= j < |vs| && vs[j].kind == kind;
      assert init[j].kind == kind;
    }
  }

  lemma PresenceBySet(vs: seq<Vif>, ws: seq<Vif>, kind: Kind)
    requires SameInterfaces(vs, ws) && Has(vs, kind)
    ensures Has(ws, kind)
  {
    var j :| 0 <= j < |vs| && vs[j].kind == kind;
    assert vs[j] in ws;
    var k :| 0 <= k < |ws| && ws[k] == vs[j];
  }

  lemma MaskBySet(vs: seq<Vif>, ws: seq<Vif>, i: nat)
    requires i < ETH_ALEN && SameInterfaces(vs, ws)
    ensures Within(Collect(vs).mask[i], Collect(ws).mask[i])
  {
    var m := Collect(vs).mask[i];
    assert Within(m, m);
    MaskIsLargest(vs, i, m);
    AgreeBySet(vs, ws, i, m);
    MaskIsLargest(ws, i, m);
  }

  /** Mask, operating mode and interrupt choice depend only on which interfaces there are. */
  lemma SummaryDependsOnSet(vs: seq<Vif>, ws: seq<Vif>)
    requires SameInterfaces(vs, ws)
    ensures Collect(vs).mask == Collect(ws).mask
    ensures OpMode(Collect(vs)) == OpMode(Collect(ws)) && TsfInterrupt(Collect(vs)) == TsfInterrupt(Collect(ws))
  {
    forall i | 0 <= i < ETH_ALEN ensures Collect(vs).mask[i] == Collect(ws).mask[i] {
      MaskBySet(vs, ws, i);
      MaskBySet(ws, vs, i);
      assert forall b :: 0 <= b < 8 ==> Collect(vs).mask[i][b] == Collect(ws).mask[i][b];
    }
    CountsShowPresence(vs);
    CountsShowPresence(ws);
    forall kind ensures Has(vs, kind) <==> Has(ws, kind) {
      if Has(vs, kind) { PresenceBySet(vs, ws, kind); }
      if Has(ws, kind) { PresenceBySet(ws, vs, kind); }
    }
  }

  /** Passing an interface that is in the list anyway changes neither mask nor mode; only the
      hardware address is then its own. */
  lemma ExplicitInterfaceIsHarmless(v: Vif, active: seq<Vif>)
    requires v in active
    ensures var d, e := Collect(Visited(Some(v), active)), Collect(Visited(None, active));
            && d.mask == e.mask && OpMode(d) == OpMode(e) && TsfInterrupt(d) == TsfInterrupt(e)
            && d.hwAddr == v.addr && e.hwAddr == active[0].addr
  {
    var vs, ws := Visited(Some(v), active), Visited(None, active);
    assert ws == active;
    SummaryDependsOnSet(vs, ws);
    HardwareAddress(vs);
    HardwareAddress(ws);
  }

  // ---------- The driver's structures ----------

  class Summary {
    var hasAddr: bool
    const hwAddr: array<Byte>
    const mask: array<Byte>
    var naps: nat
    var nstations: nat
    var nadhocs: nat
    var nmeshes: nat
    var nwds: nat

    ghost predicate Valid()
      reads this
    {
      hwAddr.Length == mask.Length == ETH_ALEN && hwAddr != mask
    }

    ghost function State(): Data
      requires Valid()
      reads this, hwAddr, mask
    {
      Data(hasAddr, hwAddr[..], mask[..], naps, nstations, nadhocs, nmeshes, nwds)
    }

    constructor ()
      ensures Valid() && fresh(hwAddr) && fresh(mask) && State() == EMPTY
    {
      hasAddr := false;
      hwAddr := new Byte[ETH_ALEN](_ => ZERO);
      mask := new Byte[ETH_ALEN](_ => FULL);
      naps, nstations, nadhocs, nmeshes, nwds := 0, 0, 0, 0, 0;
    }

    method NarrowMask(mac: Mac)
      requires Valid()
      modifies mask
      ensures mask[..] == NarrowAll(old(mask[..]), hwAddr[..], mac)
    {
      ghost var was := mask[..];
      for i := 0 to ETH_ALEN
        invariant forall k :: 0 <= k < i ==> mask[k] == Narrow(was[k], hwAddr[k], mac[k])
        invariant forall k :: i <= k < ETH_ALEN ==> mask[k] == was[k]
      {
        mask[i] := Narrow(mask[i], hwAddr[i], mac[i]);
      }
    }

    method CopyAddress(mac: Mac)
      requires Valid()
      modifies hwAddr
      ensures hwAddr[..] == mac
    {
      for i := 0 to ETH_ALEN
        invariant forall k :: 0 <= k < i ==> hwAddr[k] == mac[k]
      {
        hwAddr[i] := mac[i];
      }
    }

    method VifIter(v: Vif)
      requires Valid()
      modifies this, hwAddr, mask
      ensures Valid() && State() == Visit(old(State()), v)
    {
      if hasAddr {
        NarrowMask(v.addr);
      } else {
        CopyAddress(v.addr);
        hasAddr := true;
      }
      match v.kind {
        case AccessPoint => naps := naps + 1;
        case Station => nstations := nstations + 1;
        case Adhoc => nadhocs := nadhocs + 1;
        case MeshPoint => nmeshes := nmeshes + 1;
        case Wds => nwds := nwds + 1;
        case Other =>
      }
    }

    method OperatingMode() returns (mode: Mode)
      requires Valid()
      ensures mode == OpMode(State())
    {
      if naps > 0 {
        mode := ModeAp;
      } else if nmeshes != 0 {
        mode := ModeMesh;
      } else if nwds != 0 {
        mode := ModeAp;
      } else if nadhocs != 0 {
        mode := ModeAdhoc;
      } else {
        mode := ModeStation;
      }
    }
  }

  /** `ath9k_calculate_summary_state`: what it leaves in the driver's registers. */
  method CalculateSummary(vif: Option<Vif>, active: seq<Vif>)
    returns (macAddr: Mac, bssidMask: Mac, mode: Mode, tsf: bool)
    ensures var d := Collect(Visited(vif, active));
            macAddr == d.hwAddr && bssidMask == d.mask && mode == OpMode(d) && tsf == TsfInterrupt(d)
    ensures forall i, m: Byte :: 0 <= i < ETH_ALEN ==> (Within(m, bssidMask[i]) <==> Agree(Visited(vif, active), i, m))
    ensures Decided(Visited(vif, active), mode, tsf)
    ensures Visited(vif, active) != [] ==> macAddr == Visited(vif, active)[0].addr
  {
    var data := CollectAll(vif, active);
    macAddr, bssidMask := data.hwAddr[..], data.mask[..];
    mode := data.OperatingMode();
    tsf := data.nstations + data.nadhocs + data.nmeshes > 0;
    MaskCharacterised(Visited(vif, active));
    TypesDecide(Visited(vif, active));
    HardwareAddress(Visited(vif, active));
  }

  lemma MaskCharacterised(vifs: seq<Vif>)
    ensures forall i, m: Byte :: 0 <= i < ETH_ALEN ==> (Within(m, Collect(vifs).mask[i]) <==> Agree(vifs, i, m))
  {
    forall i, m: Byte | 0 <= i < ETH_ALEN ensures Within(m, Collect(vifs).mask[i]) <==> Agree(vifs, i, m) {
      MaskIsLargest(vifs, i, m);
    }
  }

  /** `ath9k_calculate_iter_data`: the explicit interface first, then the active ones. */
  method CollectAll(vif: Option<Vif>, active: seq<Vif>) returns (data: Summary)
    ensures fresh(data) && data.Valid() && data.State() == Collect(Visited(vif, active))
  {
    data := new Summary();
    if vif.Some? {
      data.VifIter(vif.value);
    }
    ghost var first := if vif.Some? then [vif.value] else [];
    for k := 0 to |active|
      invariant fresh(data) && fresh(data.hwAddr) && fresh(data.mask) && data.Valid()
      invariant data.State() == Collect(first + active[..k])
    {
      data.VifIter(active[k]);
      assert (first + active[..k + 1])[..|first| + k] == first + active[..k];
    }
    assert active[..|active|] == active;
  }
}
