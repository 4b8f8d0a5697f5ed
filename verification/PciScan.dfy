/**
  Enumeration of the PCI buses through PCI-to-PCI bridges into a table of 32 entries. The configuration
  space is a function that stays the same during the scan; nothing keeps its bridges from forming a cycle.
 */
module PciScan {
  import opened Common
  import opened Multiples

  const CAPACITY: nat := 32

  type Bus = x: int | 0 <= x < 256
  type DeviceNo = x: int | 0 <= x < 32
  type FuncNo = x: int | 0 <= x < 8
  type RegNo = x: int | 0 <= x < 256

  /** One function of one device on one bus. */
  datatype PciDevice = PciDevice(bus: Bus, device: DeviceNo, func: FuncNo)

  /** What the scan reads of a function's configuration registers. */
  datatype Info = Info(valid: bool, singleFunction: bool, bridge: bool, secondary: Bus)

  type Space = PciDevice -> Info

  // ---------------------------------------------------------------- registers

  /** The configuration address of a register; its last two bits are ignored. */
  function MakeAddress(f: PciDevice, reg: RegNo): nat {
    0x8000_0000 + f.bus * 0x1_0000 + f.device * 0x800 + f.func * 0x100 + (reg - reg % 4)
  }

  /** The source joins the fields with shifts and `or`; they share no bit, so this is their sum. */
  lemma OrIsSum(bus: bv32, device: bv32, func: bv32, reg: bv32)
    requires bus < 256 && device < 32 && func < 8 && reg < 256
    ensures (1 << 31) | (bus << 16) | (device << 11) | (func << 8) | (reg & 0xfc)
         == 0x8000_0000 + bus * 0x1_0000 + device * 0x800 + func * 0x100 + (reg & 0xfc)
  {
  }

  /** Bus, device, function and register can be read back from an address. */
  lemma AddressDecodes(f: PciDevice, reg: RegNo)
    ensures var a := MakeAddress(f, reg) - 0x8000_0000;
      && a / 0x1_0000 == f.bus && a % 0x1_0000 / 0x800 == f.device
      && a % 0x800 / 0x100 == f.func && a % 0x100 == reg - reg % 4
  {
    var z := reg - reg % 4;
    var y := f.func * 0x100 + z;
    Split(f.bus, 0x1_0000, f.device * 0x800 + y);
    Split(f.device, 0x800, y);
    Split(f.bus * 32 + f.device, 0x800, y);
    Split(f.func, 0x100, z);
    Split((f.bus * 32 + f.device) * 8 + f.func, 0x100, z);
  }

  /** Different functions never share a register. */
  lemma AddressesDiffer(f: PciDevice, r: RegNo, g: PciDevice, q: RegNo)
    ensures MakeAddress(f, r) == MakeAddress(g, q) <==> f == g && r / 4 == q / 4
  {
    AddressDecodes(f, r);
    AddressDecodes(g, q);
    assert r - r % 4 == 4 * (r / 4) && q - q % 4 == 4 * (q / 4);
  }

  // the registers at 0x00, 0x0c, 0x08 and 0x18

  predicate IdIsValid(id: bv32) {
    id & 0xffff != 0xffff
  }

  predicate HeaderIsSingle(header: bv32) {
    ((header >> 16) & 0xff) & 0x80 == 0
  }

  predicate ClassIsBridge(class_: bv32) {
    (class_ >> 24) & 0xff == 0x06 && (class_ >> 16) & 0xff == 0x04
  }

  function BusOf(buses: bv32): Bus {
    ((buses >> 8) & 0xff) as bv8 as int
  }

  /** The configuration space as the hardware has it: a word for each address. */
  type Registers = nat -> bv32

  function InfoAt(register: Registers, f: PciDevice): Info {
    Info(IdIsValid(register(MakeAddress(f, 0x00))), HeaderIsSingle(register(MakeAddress(f, 0x0c))),
         ClassIsBridge(register(MakeAddress(f, 0x08))), BusOf(register(MakeAddress(f, 0x18))))
  }

  /** The scan's view of the registers of every function. */
  function Decoded(register: Registers): Space {
    (f: PciDevice) => InfoAt(register, f)
  }

  /** What the scan sees of a function depends on that function's registers alone. */
  lemma DecodedIsLocal(register: Registers, other: Registers, f: PciDevice, g: PciDevice)
    requires f != g
    requires forall a :: (forall reg: RegNo :: a != MakeAddress(g, reg)) ==> register(a) == other(a)
    ensures Decoded(register)(f) == Decoded(other)(f)
  {
    forall r: RegNo
      ensures register(MakeAddress(f, r)) == other(MakeAddress(f, r))
    {
      forall q: RegNo ensures MakeAddress(f, r) != MakeAddress(g, q) { AddressesDiffer(f, r, g, q); }
    }
  }

  // ---------------------------------------------------------------- the header, byte by byte

  /** The bytes of each function's configuration space. */
  type Header = (PciDevice, RegNo) -> bv8

  /** A register is four bytes, the least significant first. */
  function Word(b0: bv8, b1: bv8, b2: bv8, b3: bv8): bv32 {
    (b3 as bv32 << 24) | (b2 as bv32 << 16) | (b1 as bv32 << 8) | b0 as bv32
  }

  /** The registers hold the bytes of `header`. */
  ghost predicate Reads(register: Registers, header: Header) {
    forall f: PciDevice, r: RegNo {:trigger MakeAddress(f, r)} :: r % 4 == 0 ==>
      register(MakeAddress(f, r)) == Word(header(f, r), header(f, r + 1), header(f, r + 2), header(f, r + 3))
  }

  // section 6.1 of the PCI Local Bus specification, and the PCI-to-PCI bridge header

  /** The vendor number at 0 is not all ones. */
  predicate Answers(header: Header, f: PciDevice) {
    !(header(f, 0x00) == 0xff && header(f, 0x01) == 0xff)
  }

  /** The top bit of the header type. */
  predicate HasManyFunctions(header: Header, f: PciDevice) {
    header(f, 0x0e) & 0x80 != 0
  }

  /** Base class 6 and subclass 4. */
  predicate SaysBridge(header: Header, f: PciDevice) {
    header(f, 0x0b) == 0x06 && header(f, 0x0a) == 0x04
  }

  function SecondaryNumber(header: Header, f: PciDevice): Bus {
    header(f, 0x19) as int
  }

  lemma WordFields(b0: bv8, b1: bv8, b2: bv8, b3: bv8)
    ensures var w := Word(b0, b1, b2, b3);
      && (IdIsValid(w) <==> !(b0 == 0xff && b1 == 0xff))
      && (HeaderIsSingle(w) <==> b2 & 0x80 == 0)
      && (ClassIsBridge(w) <==> b3 == 0x06 && b2 == 0x04)
      && ((w >> 8) & 0xff) as bv8 == b1
  {
  }

  /** What the scan sees of a function is what these bytes say. */
  lemma SeesHeader(register: Registers, header: Header, f: PciDevice)
    requires Reads(register, header)
    ensures var info := Decoded(register)(f);
      && (info.valid <==> Answers(header, f)) && (info.singleFunction <==> !HasManyFunctions(header, f))
      && (info.bridge <==> SaysBridge(header, f)) && info.secondary == SecondaryNumber(header, f)
  {
    WordFields(header(f, 0x00), header(f, 0x01), header(f, 0x02), header(f, 0x03));
    WordFields(header(f, 0x08), header(f, 0x09), header(f, 0x0a), header(f, 0x0b));
    WordFields(header(f, 0x0c), header(f, 0x0d), header(f, 0x0e), header(f, 0x0f));
    WordFields(header(f, 0x18), header(f, 0x19), header(f, 0x1a), header(f, 0x1b));
    assert register(MakeAddress(f, 0x00)) == Word(header(f, 0x00), header(f, 0x01), header(f, 0x02), header(f, 0x03));
    assert register(MakeAddress(f, 0x08)) == Word(header(f, 0x08), header(f, 0x09), header(f, 0x0a), header(f, 0x0b));
    assert register(MakeAddress(f, 0x0c)) == Word(header(f, 0x0c), header(f, 0x0d), header(f, 0x0e), header(f, 0x0f));
    assert register(MakeAddress(f, 0x18)) == Word(header(f, 0x18), header(f, 0x19), header(f, 0x1a), header(f, 0x1b));
  }

  function NthByte(w: bv32, i: nat): bv8 {
    if i == 0 then (w & 0xff) as bv8 else if i == 1 then ((w >> 8) & 0xff) as bv8
    else if i == 2 then ((w >> 16) & 0xff) as bv8 else ((w >> 24) & 0xff) as bv8
  }

  lemma WordOfBytes(w: bv32)
    ensures Word(NthByte(w, 0), NthByte(w, 1), NthByte(w, 2), NthByte(w, 3)) == w
  {
  }

  function ByteOfRegister(register: Registers, f: PciDevice, k: RegNo): bv8 {
    NthByte(register(MakeAddress(f, k)), k % 4)
  }

  lemma RegisterIsItsBytes(register: Registers, f: PciDevice, r: RegNo)
    requires r % 4 == 0
    ensures register(MakeAddress(f, r)) ==
      Word(ByteOfRegister(register, f, r), ByteOfRegister(register, f, r + 1),
           ByteOfRegister(register, f, r + 2), ByteOfRegister(register, f, r + 3))
  {
    assert (r + 1) % 4 == 1 && (r + 2) % 4 == 2 && (r + 3) % 4 == 3;
    WordOfBytes(register(MakeAddress(f, r)));
  }

  /** Whatever the registers hold, they hold the bytes of some header. */
  lemma RegistersHaveBytes(register: Registers) returns (header: Header)
    ensures Reads(register, header)
  {
    header := (f: PciDevice, k: RegNo) => ByteOfRegister(register, f, k);
    forall f: PciDevice, r: RegNo | r % 4 == 0
      ensures register(MakeAddress(f, r)) == Word(header(f, r), header(f, r + 1), header(f, r + 2), header(f, r + 3))
    {
      RegisterIsItsBytes(register, f, r);
    }
  }

  // ---------------------------------------------------------------- the decoded view

  predicate IsValid(space: Space, f: PciDevice) {
    space(f).valid
  }

  predicate IsSingleFunction(space: Space, f: PciDevice) {
    space(f).singleFunction
  }

  predicate IsBridge(space: Space, f: PciDevice) {
    space(f).bridge
  }

  function SecondaryBus(space: Space, f: PciDevice): Bus {
    space(f).secondary
  }

  // ---------------------------------------------------------------- what is on a bus

  /** The functions of a device that are looked at before number `k`. */
  function DeviceFunctions(space: Space, bus: Bus, device: DeviceNo, k: nat): seq<PciDevice>
    requires k <= 8
  {
    var zero := PciDevice(bus, device, 0);
    if k == 0 || !IsValid(space, zero) then []
    else if k == 1 then [zero]
    else
      var f := PciDevice(bus, device, k - 1);
      DeviceFunctions(space, bus, device, k - 1)
        + (if !IsSingleFunction(space, zero) && IsValid(space, f) then [f] else [])
  }

  /** The functions on the devices below `d` of a bus, in scanning order. */
  function BusFunctions(space: Space, bus: Bus, d: nat): seq<PciDevice>
    requires d <= 32
  {
    if d == 0 then [] else BusFunctions(space, bus, d - 1) + DeviceFunctions(space, bus, d - 1, 8)
  }

  function OnBus(space: Space, bus: Bus): seq<PciDevice> {
    BusFunctions(space, bus, 32)
  }

  /** The buses that the scan starts from: bus 0, or one for each function of the host bridge. */
  function RootFunctions(space: Space, k: nat): seq<PciDevice>
    requires k <= 8
  {
    if k == 0 then []
    else
      RootFunctions(space, k - 1)
        + (if IsValid(space, PciDevice(0, 0, k - 1)) then OnBus(space, k - 1) else [])
  }

  function Roots(space: Space): seq<PciDevice> {
    if IsSingleFunction(space, PciDevice(0, 0, 0)) then OnBus(space, 0) else RootFunctions(space, 8)
  }

  /** Presence, said directly. */
  predicate Present(space: Space, bus: Bus, f: PciDevice) {
    var zero := PciDevice(bus, f.device, 0);
    && f.bus == bus
    && IsValid(space, zero)
    && (f.func == 0 || (!IsSingleFunction(space, zero) && IsValid(space, f)))
  }

  lemma {:induction false} DeviceFunctionsMembers(space: Space, bus: Bus, device: DeviceNo, k: nat, f: PciDevice)
    requires k <= 8
    ensures f in DeviceFunctions(space, bus, device, k) <==> f.device == device && f.func < k && Present(space, bus, f)
    decreases k
  {
    if k > 0 {
      DeviceFunctionsMembers(space, bus, device, k - 1, f);
    }
  }

  lemma {:induction false} BusFunctionsMembers(space: Space, bus: Bus, d: nat, f: PciDevice)
    requires d <= 32
    ensures f in BusFunctions(space, bus, d) <==> f.device < d && Present(space, bus, f)
    decreases d
  {
    if d > 0 {
      BusFunctionsMembers(space, bus, d - 1, f);
      DeviceFunctionsMembers(space, bus, d - 1, 8, f);
    }
  }

  lemma OnBusMembers(space: Space, bus: Bus, f: PciDevice)
    ensures f in OnBus(space, bus) <==> Present(space, bus, f)
  {
    BusFunctionsMembers(space, bus, 32, f);
  }

  lemma {:induction false} DeviceStartsWithZero(space: Space, bus: Bus, device: DeviceNo, k: nat, n: nat)
    requires 1 <= k <= n <= 8 && IsValid(space, PciDevice(bus, device, 0))
    ensures |DeviceFunctions(space, bus, device, k)| <= |DeviceFunctions(space, bus, device, n)|
    ensures DeviceFunctions(space, bus, device, n)
         == DeviceFunctions(space, bus, device, k)
          + DeviceFunctions(space, bus, device, n)[|DeviceFunctions(space, bus, device, k)|..]
    decreases n
  {
    if k < n {
      DeviceStartsWithZero(space, bus, device, k, n - 1);
    }
  }

  lemma {:induction false} SingleIsAlone(space: Space, bus: Bus, device: DeviceNo, k: nat)
    requires 1 <= k <= 8 && IsValid(space, PciDevice(bus, device, 0))
    requires IsSingleFunction(space, PciDevice(bus, device, 0))
    ensures DeviceFunctions(space, bus, device, k) == [PciDevice(bus, device, 0)]
    decreases k
  {
    if k > 1 {
      SingleIsAlone(space, bus, device, k - 1);
    }
  }

  lemma {:induction false} BusContinues(space: Space, bus: Bus, d: nat, n: nat)
    requires d <= n <= 32
    ensures |BusFunctions(space, bus, d)| <= |BusFunctions(space, bus, n)|
    ensures BusFunctions(space, bus, n)
         == BusFunctions(space, bus, d) + BusFunctions(space, bus, n)[|BusFunctions(space, bus, d)|..]
    decreases n
  {
    if d < n {
      BusContinues(space, bus, d, n - 1);
    }
  }

  lemma {:induction false} RootsContinue(space: Space, k: nat, n: nat)
    requires k <= n <= 8
    ensures |RootFunctions(space, k)| <= |RootFunctions(space, n)|
    ensures RootFunctions(space, n) == RootFunctions(space, k) + RootFunctions(space, n)[|RootFunctions(space, k)|..]
    decreases n
  {
    if k < n {
      RootsContinue(space, k, n - 1);
    }
  }

  // ---------------------------------------------------------------- the depth-first listing

  /** A function and all below it, unless more than `depth` bridges follow one another. */
  function Expand(space: Space, f: PciDevice, depth: nat): Option<seq<PciDevice>>
    decreases depth, 0, 0
  {
    if !IsBridge(space, f) then Some([f])
    else if depth == 0 then None
    else
      var below := ExpandAll(space, OnBus(space, SecondaryBus(space, f)), depth - 1);
      if below.None? then None else Some([f] + below.value)
  }

  function ExpandAll(space: Space, fs: seq<PciDevice>, depth: nat): Option<seq<PciDevice>>
    decreases depth, 1, |fs|
  {
    if fs == [] then Some([])
    else
      var first, rest := Expand(space, fs[0], depth), ExpandAll(space, fs[1..], depth);
      if first.None? || rest.None? then None else Some(first.value + rest.value)
  }

  /** A finite listing needs no more depth than it has entries. */
  lemma {:induction false} DepthDoesNotMatter(space: Space, fs: seq<PciDevice>, a: nat, b: nat)
    requires ExpandAll(space, fs, a).Some? && (a <= b || |ExpandAll(space, fs, a).value| <= b)
    ensures ExpandAll(space, fs, b) == ExpandAll(space, fs, a)
    decreases a, 1, |fs|
  {
    if fs != [] {
      DepthDoesNotMatterForOne(space, fs[0], a, b);
      DepthDoesNotMatter(space, fs[1..], a, b);
    }
  }

  lemma {:induction false} DepthDoesNotMatterForOne(space: Space, f: PciDevice, a: nat, b: nat)
    requires Expand(space, f, a).Some? && (a <= b || |Expand(space, f, a).value| <= b)
    ensures Expand(space, f, b) == Expand(space, f, a)
    decreases a, 0, 0
  {
    if IsBridge(space, f) {
      DepthDoesNotMatter(space, OnBus(space, SecondaryBus(space, f)), a - 1, b - 1);
    }
  }

  lemma {:induction false} ExpandConcat(space: Space, fs: seq<PciDevice>, gs: seq<PciDevice>, depth: nat)
    ensures ExpandAll(space, fs + gs, depth) ==
      if ExpandAll(space, fs, depth).None? || ExpandAll(space, gs, depth).None? then None
      else Some(ExpandAll(space, fs, depth).value + ExpandAll(space, gs, depth).value)
    decreases |fs|
  {
    if fs == [] {
      assert fs + gs == gs;
      if ExpandAll(space, gs, depth).Some? {
        assert [] + ExpandAll(space, gs, depth).value == ExpandAll(space, gs, depth).value;
      }
    } else {
      ExpandConcat(space, fs[1..], gs, depth);
      assert (fs + gs)[1..] == fs[1..] + gs;
      var first, rest := Expand(space, fs[0], depth), ExpandAll(space, fs[1..], depth);
      var more := ExpandAll(space, gs, depth);
      if first.Some? && rest.Some? && more.Some? {
        assert first.value + (rest.value + more.value) == first.value + rest.value + more.value;
      }
    }
  }

  // ---------------------------------------------------------------- the outcome of a scan

  /** The whole listing of `fs` still has room behind `before`. */
  ghost predicate Fits(space: Space, fs: seq<PciDevice>, before: seq<PciDevice>)
    requires |before| <= CAPACITY
  {
    var all := ExpandAll(space, fs, CAPACITY - |before|);
    all.Some? && |before| + |all.value| <= CAPACITY
  }

  /** Scanning `fs` with `before` in the table leaves `after`, and succeeds exactly when the listing fits. */
  ghost predicate Outcome(space: Space, before: seq<PciDevice>, fs: seq<PciDevice>, ok: bool, after: seq<PciDevice>) {
    && |before| <= |after| <= CAPACITY && before == after[..|before|]
    && (ok <==> Fits(space, fs, before))
    && (ok ==> after == before + ExpandAll(space, fs, CAPACITY - |before|).value)
    && (!ok ==> |after| == CAPACITY)
  }

  lemma NothingToScan(space: Space, before: seq<PciDevice>)
    requires |before| <= CAPACITY
    ensures Outcome(space, before, [], true, before)
  {
    assert before + [] == before;
  }

  /** What is left after `fs` has room for `gs` exactly when there was room for both. */
  lemma FitsTogether(space: Space, before: seq<PciDevice>, fs: seq<PciDevice>, mid: seq<PciDevice>, gs: seq<PciDevice>)
    requires Outcome(space, before, fs, true, mid)
    ensures Fits(space, fs + gs, before) <==> Fits(space, gs, mid)
    ensures Fits(space, gs, mid) ==>
      ExpandAll(space, fs + gs, CAPACITY - |before|).value ==
      ExpandAll(space, fs, CAPACITY - |before|).value + ExpandAll(space, gs, CAPACITY - |mid|).value
  {
    var room, left := CAPACITY - |before|, CAPACITY - |mid|;
    ExpandConcat(space, fs, gs, room);
    if Fits(space, gs, mid) {
      DepthDoesNotMatter(space, gs, left, room);
    } else if Fits(space, fs + gs, before) {
      DepthDoesNotMatter(space, gs, room, left);
    }
  }

  lemma ThenMore(space: Space, before: seq<PciDevice>, fs: seq<PciDevice>, mid: seq<PciDevice>,
                 gs: seq<PciDevice>, ok: bool, after: seq<PciDevice>)
    requires Outcome(space, before, fs, true, mid) && Outcome(space, mid, gs, ok, after)
    ensures Outcome(space, before, fs + gs, ok, after)
  {
    FitsTogether(space, before, fs, mid, gs);
    assert before == mid[..|before|] == after[..|mid|][..|before|] == after[..|before|];
    if ok {
      var first, more := ExpandAll(space, fs, CAPACITY - |before|).value, ExpandAll(space, gs, CAPACITY - |mid|).value;
      assert before + first + more == before + (first + more);
    }
  }

  lemma ThenGiveUp(space: Space, before: seq<PciDevice>, fs: seq<PciDevice>, gs: seq<PciDevice>, after: seq<PciDevice>)
    requires Outcome(space, before, fs, false, after)
    ensures Outcome(space, before, fs + gs, false, after)
  {
    ExpandConcat(space, fs, gs, CAPACITY - |before|);
  }

  lemma BridgeThenBelow(space: Space, before: seq<PciDevice>, f: PciDevice, ok: bool, after: seq<PciDevice>)
    requires |before| < CAPACITY && IsBridge(space, f)
    requires Outcome(space, before + [f], OnBus(space, SecondaryBus(space, f)), ok, after)
    ensures Outcome(space, before, [f], ok, after)
  {
    OneAlone(space, f, CAPACITY - |before|);
    var bus := OnBus(space, SecondaryBus(space, f));
    var below := ExpandAll(space, bus, CAPACITY - |before| - 1);
    assert before == (before + [f])[..|before|] == after[..|before|];
    if ok {
      assert before + [f] + below.value == before + ([f] + below.value);
    }
  }

  lemma OneAlone(space: Space, f: PciDevice, depth: nat)
    ensures ExpandAll(space, [f], depth) == Expand(space, f, depth)
  {
    assert ExpandAll(space, [], depth) == Some([]);
    assert [f][1..] == [];
    if Expand(space, f, depth).Some? {
      assert Expand(space, f, depth).value + [] == Expand(space, f, depth).value;
    }
  }

  lemma PlainFunction(space: Space, before: seq<PciDevice>, f: PciDevice)
    requires |before| < CAPACITY && !IsBridge(space, f)
    ensures Outcome(space, before, [f], true, before + [f])
  {
    OneAlone(space, f, CAPACITY - |before|);
  }

  lemma NoRoom(space: Space, before: seq<PciDevice>, f: PciDevice)
    requires |before| == CAPACITY
    ensures Outcome(space, before, [f], false, before)
  {
    OneAlone(space, f, 0);
  }

  // ---------------------------------------------------------------- reachability through bridges

  /** `p` starts in `fs`, and each next function is on the secondary bus of the bridge before it. */
  ghost predicate Chain(space: Space, fs: seq<PciDevice>, p: seq<PciDevice>) {
    && p != [] && p[0] in fs
    && forall i :: 0 <= i < |p| - 1 ==> Leads(space, p[i], p[i + 1])
  }

  predicate Leads(space: Space, f: PciDevice, g: PciDevice) {
    IsBridge(space, f) && g in OnBus(space, SecondaryBus(space, f))
  }

  ghost predicate Reachable(space: Space, fs: seq<PciDevice>, f: PciDevice) {
    exists p :: Chain(space, fs, p) && p[|p| - 1] == f
  }

  lemma {:induction false} ListedIsReachable(space: Space, fs: seq<PciDevice>, depth: nat, f: PciDevice)
    requires ExpandAll(space, fs, depth).Some? && f in ExpandAll(space, fs, depth).value
    ensures Reachable(space, fs, f)
    decreases depth, |fs|
  {
    if fs != [] {
      var first := Expand(space, fs[0], depth).value;
      if f in first {
        assert first[0] == fs[0];
        if f == fs[0] {
          assert Chain(space, fs, [f]);
        } else {
          var bus := OnBus(space, SecondaryBus(space, fs[0]));
          ListedIsReachable(space, bus, depth - 1, f);
          var p :| Chain(space, bus, p) && p[|p| - 1] == f;
          ChainFromBridge(space, fs, fs[0], p);
        }
      } else {
        ListedIsReachable(space, fs[1..], depth, f);
        var p :| Chain(space, fs[1..], p) && p[|p| - 1] == f;
        assert Chain(space, fs, p);
      }
    }
  }

  lemma ChainFromBridge(space: Space, fs: seq<PciDevice>, f: PciDevice, p: seq<PciDevice>)
    requires f in fs && IsBridge(space, f) && Chain(space, OnBus(space, SecondaryBus(space, f)), p)
    ensures Reachable(space, fs, p[|p| - 1])
  {
    var q := [f] + p;
    forall i | 0 <= i < |q| - 1
      ensures Leads(space, q[i], q[i + 1])
    {
      assert i > 0 ==> Leads(space, p[i - 1], p[i - 1 + 1]);
    }
    assert Chain(space, fs, q) && q[|q| - 1] == p[|p| - 1];
  }

  lemma {:induction false} PartIsListed(space: Space, fs: seq<PciDevice>, depth: nat, f: PciDevice)
    requires ExpandAll(space, fs, depth).Some? && f in fs
    ensures Expand(space, f, depth).Some?
    ensures forall g :: g in Expand(space, f, depth).value ==> g in ExpandAll(space, fs, depth).value
    decreases |fs|
  {
    if f != fs[0] {
      PartIsListed(space, fs[1..], depth, f);
    }
  }

  /** Along a chain every function is listed, and the chain is no longer than the depth allows. */
  lemma {:induction false} ChainIsListed(space: Space, fs: seq<PciDevice>, depth: nat, p: seq<PciDevice>)
    requires ExpandAll(space, fs, depth).Some? && Chain(space, fs, p)
    ensures p[|p| - 1] in ExpandAll(space, fs, depth).value && |p| <= depth + 1
    decreases depth
  {
    PartIsListed(space, fs, depth, p[0]);
    assert Expand(space, p[0], depth).value[0] == p[0];
    if |p| > 1 {
      assert Leads(space, p[0], p[0 + 1]);
      var bus := OnBus(space, SecondaryBus(space, p[0]));
      forall i | 0 <= i < |p[1..]| - 1
        ensures Leads(space, p[1..][i], p[1..][i + 1])
      {
        assert Leads(space, p[i + 1], p[i + 1 + 1]);
      }
      ChainIsListed(space, bus, depth - 1, p[1..]);
    }
  }

  /** On success the table holds exactly the functions that bridges lead to. */
  lemma OkListsExactlyReachable(space: Space, fs: seq<PciDevice>, after: seq<PciDevice>)
    requires Outcome(space, [], fs, true, after)
    ensures forall f :: f in after <==> Reachable(space, fs, f)
  {
    var all := ExpandAll(space, fs, CAPACITY).value;
    assert after == all;
    forall f
      ensures f in all <==> Reachable(space, fs, f)
    {
      if f in all {
        ListedIsReachable(space, fs, CAPACITY, f);
      }
      if Reachable(space, fs, f) {
        var p :| Chain(space, fs, p) && p[|p| - 1] == f;
        ChainIsListed(space, fs, CAPACITY, p);
      }
    }
  }

  /** A chain that comes back to a function can go round once more. */
  lemma {:induction false} Pump(space: Space, fs: seq<PciDevice>, p: seq<PciDevice>, i: nat, j: nat, m: nat)
    returns (q: seq<PciDevice>)
    requires Chain(space, fs, p) && i < j < |p| && p[i] == p[j]
    ensures Chain(space, fs, q) && |q| >= m
    decreases m - |p|
  {
    if |p| >= m {
      q := p;
    } else {
      var r := p[..j] + p[i..];
      forall k | 0 <= k < |r| - 1
        ensures Leads(space, r[k], r[k + 1])
      {
        var a := if k < j then k else k - j + i;
        assert Leads(space, p[a], p[a + 1]);
      }
      q := Pump(space, fs, r, i, j, m);
    }
  }

  ghost predicate OnOwnBuses(space: Space, fs: seq<PciDevice>) {
    forall f :: f in fs ==> f in OnBus(space, f.bus)
  }

  lemma BusIsOwn(space: Space, bus: Bus)
    ensures OnOwnBuses(space, OnBus(space, bus))
  {
    forall f | f in OnBus(space, bus)
      ensures f in OnBus(space, f.bus)
    {
      OnBusMembers(space, bus, f);
    }
  }

  lemma {:induction false} RootPartsAreOwn(space: Space, k: nat)
    requires k <= 8
    ensures OnOwnBuses(space, RootFunctions(space, k))
    decreases k
  {
    if k > 0 {
      RootPartsAreOwn(space, k - 1);
      BusIsOwn(space, k - 1);
    }
  }

  lemma RootsAreOwn(space: Space)
    ensures OnOwnBuses(space, Roots(space))
  {
    BusIsOwn(space, 0);
    RootPartsAreOwn(space, 8);
  }

  lemma OnItsBus(space: Space, fs: seq<PciDevice>, p: seq<PciDevice>, i: nat)
    requires Chain(space, fs, p) && OnOwnBuses(space, fs) && i < |p|
    ensures p[i] in OnBus(space, p[i].bus)
  {
    if i > 0 {
      assert Leads(space, p[i - 1], p[i - 1 + 1]);
      OnBusMembers(space, SecondaryBus(space, p[i - 1]), p[i]);
    }
  }

  lemma ChainGoesBack(space: Space, fs: seq<PciDevice>, p: seq<PciDevice>, i: nat, j: nat)
    requires Chain(space, fs, p) && i <= j < |p| && Leads(space, p[j], p[i])
    ensures Chain(space, fs, p[..j + 1] + [p[i]])
  {
    var back := p[..j + 1] + [p[i]];
    forall k | 0 <= k < |back| - 1
      ensures Leads(space, back[k], back[k + 1])
    {
      if k < j {
        assert Leads(space, p[k], p[k + 1]);
      }
    }
  }

  lemma LongChainDoesNotFit(space: Space, fs: seq<PciDevice>, q: seq<PciDevice>, before: seq<PciDevice>)
    requires Chain(space, fs, q) && |q| > CAPACITY + 1 && |before| <= CAPACITY
    ensures !Fits(space, fs, before)
  {
    if Fits(space, fs, before) {
      ChainIsListed(space, fs, CAPACITY - |before|, q);
    }
  }

  /** The bridge at the end of the chain `p` points back at the bus of an ancestor, or at its own. */
  ghost predicate PointsBack(space: Space, fs: seq<PciDevice>, p: seq<PciDevice>, i: nat) {
    && Chain(space, fs, p) && i < |p|
    && IsBridge(space, p[|p| - 1]) && SecondaryBus(space, p[|p| - 1]) == p[i].bus
  }

  ghost predicate HasCycle(space: Space, fs: seq<PciDevice>) {
    exists p, i :: PointsBack(space, fs, p, i)
  }

  /** A cycle of bridges always ends in the error, never in a hang. */
  lemma CycleMeansFull(space: Space, fs: seq<PciDevice>, before: seq<PciDevice>, ok: bool, after: seq<PciDevice>)
    requires OnOwnBuses(space, fs) && HasCycle(space, fs) && Outcome(space, before, fs, ok, after)
    ensures !ok && |after| == CAPACITY
  {
    var p, i :| PointsBack(space, fs, p, i);
    OnItsBus(space, fs, p, i);
    ChainGoesBack(space, fs, p, i, |p| - 1);
    assert p[..|p|] == p;
    var q := Pump(space, fs, p + [p[i]], i, |p|, CAPACITY + 2);
    LongChainDoesNotFit(space, fs, q, before);
  }

  // ---------------------------------------------------------------- how often a function is listed

  ghost function Count(list: seq<PciDevice>, h: PciDevice): nat {
    if list == [] then 0 else (if list[0] == h then 1 else 0) + Count(list[1..], h)
  }

  /** The entries of the list that are bridges to the bus of `h`. */
  ghost function Parents(space: Space, list: seq<PciDevice>, h: PciDevice): nat {
    if list == [] then 0 else (if Leads(space, list[0], h) then 1 else 0) + Parents(space, list[1..], h)
  }

  lemma {:induction false} CountConcat(a: seq<PciDevice>, b: seq<PciDevice>, h: PciDevice)
    ensures Count(a + b, h) == Count(a, h) + Count(b, h)
    decreases |a|
  {
    if a == [] {
      assert a + b == b;
    } else {
      CountConcat(a[1..], b, h);
      assert (a + b)[1..] == a[1..] + b;
    }
  }

  lemma {:induction false} ParentsConcat(space: Space, a: seq<PciDevice>, b: seq<PciDevice>, h: PciDevice)
    ensures Parents(space, a + b, h) == Parents(space, a, h) + Parents(space, b, h)
    decreases |a|
  {
    if a == [] {
      assert a + b == b;
    } else {
      ParentsConcat(space, a[1..], b, h);
      assert (a + b)[1..] == a[1..] + b;
    }
  }

  lemma {:induction false} CountIsPresence(list: seq<PciDevice>, h: PciDevice)
    ensures Count(list, h) > 0 <==> h in list
    ensures NoDuplicates(list) ==> Count(list, h) <= 1
    decreases |list|
  {
    if list != [] {
      CountIsPresence(list[1..], h);
    }
  }

  lemma DistinctConcat(a: seq<PciDevice>, b: seq<PciDevice>)
    requires NoDuplicates(a) && NoDuplicates(b) && forall f :: f in a ==> f !in b
    ensures NoDuplicates(a + b)
  {
    forall i, j | 0 <= i < j < |a + b|
      ensures (a + b)[i] != (a + b)[j]
    {
      if i < |a| <= j {
        assert a[i] in a && b[j - |a|] in b;
      }
    }
  }

  lemma {:induction false} OnceEachIsDistinct(list: seq<PciDevice>)
    requires forall h :: h in list ==> Count(list, h) == 1
    ensures NoDuplicates(list)
    decreases |list|
  {
    if list != [] {
      assert list[0] in list;
      CountIsPresence(list[1..], list[0]);
      forall h | h in list[1..]
        ensures Count(list[1..], h) == 1
      {
        assert h in list;
        CountIsPresence(list[1..], h);
      }
      OnceEachIsDistinct(list[1..]);
      DistinctConcat([list[0]], list[1..]);
      assert list == [list[0]] + list[1..];
    }
  }

  /** If only `f` leads to `h`, the parents of `h` in a list are the entries of `f`. */
  lemma {:induction false} OneParentCounts(space: Space, list: seq<PciDevice>, f: PciDevice, h: PciDevice)
    requires Leads(space, f, h) && forall g :: g in list && Leads(space, g, h) ==> g == f
    ensures Parents(space, list, h) == Count(list, f)
    decreases |list|
  {
    if list != [] {
      OneParentCounts(space, list[1..], f, h);
    }
  }

  lemma {:induction false} NoParents(space: Space, list: seq<PciDevice>, h: PciDevice)
    requires forall g :: g in list ==> !Leads(space, g, h)
    ensures Parents(space, list, h) == 0
    decreases |list|
  {
    if list != [] {
      NoParents(space, list[1..], h);
    }
  }

  lemma {:induction false} ParentsAtLeast(space: Space, list: seq<PciDevice>, f: PciDevice, h: PciDevice)
    requires Leads(space, f, h)
    ensures Parents(space, list, h) >= Count(list, f)
    decreases |list|
  {
    if list != [] {
      ParentsAtLeast(space, list[1..], f, h);
    }
  }

  lemma {:induction false} TwoParents(space: Space, list: seq<PciDevice>, f: PciDevice, g: PciDevice, h: PciDevice)
    requires Leads(space, f, h) && Leads(space, g, h) && f != g
    ensures Parents(space, list, h) >= Count(list, f) + Count(list, g)
    decreases |list|
  {
    if list != [] {
      TwoParents(space, list[1..], f, g, h);
    }
  }

  // nothing is listed twice on one bus, nor on the buses the scan starts from

  lemma {:induction false} DeviceDistinct(space: Space, bus: Bus, device: DeviceNo, k: nat)
    requires k <= 8
    ensures NoDuplicates(DeviceFunctions(space, bus, device, k))
    decreases k
  {
    if k > 1 {
      DeviceDistinct(space, bus, device, k - 1);
      DeviceFunctionsMembers(space, bus, device, k - 1, PciDevice(bus, device, k - 1));
    }
  }

  lemma {:induction false} BusDistinct(space: Space, bus: Bus, d: nat)
    requires d <= 32
    ensures NoDuplicates(BusFunctions(space, bus, d))
    decreases d
  {
    if d > 0 {
      BusDistinct(space, bus, d - 1);
      DeviceDistinct(space, bus, d - 1, 8);
      var before, last := BusFunctions(space, bus, d - 1), DeviceFunctions(space, bus, d - 1, 8);
      forall f | f in before
        ensures f !in last
      {
        BusFunctionsMembers(space, bus, d - 1, f);
        DeviceFunctionsMembers(space, bus, d - 1, 8, f);
      }
      DistinctConcat(before, last);
    }
  }

  lemma {:induction false} RootFunctionsDistinct(space: Space, k: nat)
    requires k <= 8
    ensures NoDuplicates(RootFunctions(space, k)) && forall f :: f in RootFunctions(space, k) ==> f.bus < k
    decreases k
  {
    if k > 0 {
      RootFunctionsDistinct(space, k - 1);
      BusDistinct(space, k - 1, 32);
      forall f | f in OnBus(space, k - 1)
        ensures f.bus == k - 1
      {
        OnBusMembers(space, k - 1, f);
      }
      DistinctConcat(RootFunctions(space, k - 1), OnBus(space, k - 1));
    }
  }

  lemma RootsDistinct(space: Space)
    ensures NoDuplicates(Roots(space))
  {
    BusDistinct(space, 0, 32);
    RootFunctionsDistinct(space, 8);
  }

  /** Every entry of a listing is one of the functions it starts from or is there for one entry of a parent. */
  lemma {:induction false} ListingBalance(space: Space, fs: seq<PciDevice>, depth: nat, h: PciDevice)
    requires ExpandAll(space, fs, depth).Some?
    ensures var all := ExpandAll(space, fs, depth).value; Count(all, h) == Count(fs, h) + Parents(space, all, h)
    decreases depth, 1, |fs|
  {
    if fs != [] {
      var first, rest := Expand(space, fs[0], depth).value, ExpandAll(space, fs[1..], depth).value;
      BalanceOfOne(space, fs[0], depth, h);
      ListingBalance(space, fs[1..], depth, h);
      CountConcat(first, rest, h);
      ParentsConcat(space, first, rest, h);
    }
  }

  lemma {:induction false} BalanceOfOne(space: Space, f: PciDevice, depth: nat, h: PciDevice)
    requires Expand(space, f, depth).Some?
    ensures var all := Expand(space, f, depth).value;
      Count(all, h) == (if f == h then 1 else 0) + Parents(space, all, h)
    decreases depth, 0, 0
  {
    var all := Expand(space, f, depth).value;
    if IsBridge(space, f) {
      var bus := OnBus(space, SecondaryBus(space, f));
      var below := ExpandAll(space, bus, depth - 1).value;
      ListingBalance(space, bus, depth - 1, h);
      BusDistinct(space, SecondaryBus(space, f), 32);
      CountIsPresence(bus, h);
      assert all[1..] == below;
    } else {
      assert all[1..] == [];
    }
  }

  /** The scan comes to `f`, which is a bridge to the bus of `h`. */
  ghost predicate WayTo(space: Space, fs: seq<PciDevice>, f: PciDevice, h: PciDevice) {
    Reachable(space, fs, f) && Leads(space, f, h)
  }

  /**
    No two bridges that the scan comes to lead to the same function, that is to one bus with something on it,
    and none leads back to where the scan started.
   */
  ghost predicate OneWayToEach(space: Space, fs: seq<PciDevice>) {
    && (forall f, g, h :: WayTo(space, fs, f, h) && WayTo(space, fs, g, h) ==> f == g)
    && (forall f, h :: WayTo(space, fs, f, h) ==> h !in fs)
  }

  lemma {:induction false} ListedOnce(space: Space, fs: seq<PciDevice>, depth: nat, p: seq<PciDevice>)
    requires ExpandAll(space, fs, depth).Some? && NoDuplicates(fs) && OneWayToEach(space, fs) && Chain(space, fs, p)
    requires forall f :: f in ExpandAll(space, fs, depth).value ==> Reachable(space, fs, f)
    ensures Count(ExpandAll(space, fs, depth).value, p[|p| - 1]) == 1
    decreases |p|
  {
    var all, h := ExpandAll(space, fs, depth).value, p[|p| - 1];
    ListingBalance(space, fs, depth, h);
    CountIsPresence(fs, h);
    if |p| == 1 {
      assert forall g :: g in all ==> !WayTo(space, fs, g, h);
      NoParents(space, all, h);
    } else {
      var q := p[..|p| - 1];
      var f := q[|q| - 1];
      assert Leads(space, p[|p| - 2], p[|p| - 2 + 1]);
      assert Chain(space, fs, q);
      ListedOnce(space, fs, depth, q);
      assert WayTo(space, fs, f, h);
      assert forall g :: g in all && Leads(space, g, h) ==> WayTo(space, fs, g, h);
      OneParentCounts(space, all, f, h);
    }
  }

  lemma {:induction false} TwiceListed(space: Space, fs: seq<PciDevice>, depth: nat)
    requires ExpandAll(space, fs, depth).Some? && !OneWayToEach(space, fs)
    requires forall f :: Reachable(space, fs, f) ==> f in ExpandAll(space, fs, depth).value
    ensures !NoDuplicates(ExpandAll(space, fs, depth).value)
  {
    var all := ExpandAll(space, fs, depth).value;
    if f, g, h :| WayTo(space, fs, f, h) && WayTo(space, fs, g, h) && f != g {
      TwoParents(space, all, f, g, h);
      CountIsPresence(all, f);
      CountIsPresence(all, g);
      ListingBalance(space, fs, depth, h);
      CountIsPresence(all, h);
    } else {
      var f, h :| WayTo(space, fs, f, h) && h in fs;
      ParentsAtLeast(space, all, f, h);
      CountIsPresence(all, f);
      CountIsPresence(fs, h);
      ListingBalance(space, fs, depth, h);
      CountIsPresence(all, h);
    }
  }

  /** On success nothing is listed twice, if and only if there is only one way to each function. */
  lemma OnceIffOneWay(space: Space, fs: seq<PciDevice>, after: seq<PciDevice>)
    requires Outcome(space, [], fs, true, after) && NoDuplicates(fs)
    ensures NoDuplicates(after) <==> OneWayToEach(space, fs)
  {
    OkListsExactlyReachable(space, fs, after);
    assert after == ExpandAll(space, fs, CAPACITY).value;
    if OneWayToEach(space, fs) {
      forall h | h in after
        ensures Count(after, h) == 1
      {
        var p :| Chain(space, fs, p) && p[|p| - 1] == h;
        ListedOnce(space, fs, CAPACITY, p);
      }
      OnceEachIsDistinct(after);
    } else {
      TwiceListed(space, fs, CAPACITY);
    }
  }

  lemma WhatItMeans(space: Space, before: seq<PciDevice>, fs: seq<PciDevice>, ok: bool, after: seq<PciDevice>)
    requires Outcome(space, before, fs, ok, after)
    ensures ok && before == [] ==> forall f :: f in after <==> Reachable(space, fs, f)
    ensures ok && before == [] && NoDuplicates(fs) ==> (NoDuplicates(after) <==> OneWayToEach(space, fs))
    ensures OnOwnBuses(space, fs) && HasCycle(space, fs) ==> !ok
  {
    if ok && before == [] {
      OkListsExactlyReachable(space, fs, after);
      if NoDuplicates(fs) {
        OnceIffOneWay(space, fs, after);
      }
    }
    if OnOwnBuses(space, fs) && HasCycle(space, fs) {
      CycleMeansFull(space, fs, before, ok, after);
    }
  }

  // ---------------------------------------------------------------- the same on the bytes of the headers

  /** Function `f` shows on its bus: it answers, and so does function 0 of its device, which says there are more. */
  predicate Shown(header: Header, f: PciDevice) {
    var zero := PciDevice(f.bus, f.device, 0);
    Answers(header, zero) && (f.func == 0 || (HasManyFunctions(header, zero) && Answers(header, f)))
  }

  /** On a bus of the host bridge: bus 0, or the number of one of its functions when it has several. */
  predicate OnRootBus(header: Header, f: PciDevice) {
    && Shown(header, f)
    && if HasManyFunctions(header, PciDevice(0, 0, 0)) then f.bus < 8 && Answers(header, PciDevice(0, 0, f.bus))
       else f.bus == 0
  }

  /** Function `f` is a bridge to the bus on which `g` shows. */
  predicate BridgesTo(header: Header, f: PciDevice, g: PciDevice) {
    SaysBridge(header, f) && g.bus == SecondaryNumber(header, f) && Shown(header, g)
  }

  ghost predicate Route(header: Header, p: seq<PciDevice>) {
    && p != [] && OnRootBus(header, p[0])
    && forall i :: 0 <= i < |p| - 1 ==> BridgesTo(header, p[i], p[i + 1])
  }

  ghost predicate Attached(header: Header, f: PciDevice) {
    exists p :: Route(header, p) && p[|p| - 1] == f
  }

  /** A bridge at the end of a route points back at a bus of the route. */
  ghost predicate PointsAround(header: Header, p: seq<PciDevice>, i: nat) {
    && Route(header, p) && i < |p|
    && SaysBridge(header, p[|p| - 1]) && SecondaryNumber(header, p[|p| - 1]) == p[i].bus
  }

  ghost predicate AttachedBy(header: Header, f: PciDevice, h: PciDevice) {
    Attached(header, f) && BridgesTo(header, f, h)
  }

  /** No two attached bridges lead to one function, and none leads back to a bus of the host bridge. */
  ghost predicate AttachedOnce(header: Header) {
    && (forall f, g, h :: AttachedBy(header, f, h) && AttachedBy(header, g, h) ==> f == g)
    && (forall f, h :: AttachedBy(header, f, h) ==> !OnRootBus(header, h))
  }

  lemma {:induction false} RootFunctionsMembers(space: Space, k: nat, f: PciDevice)
    requires k <= 8
    ensures f in RootFunctions(space, k) <==>
      f.bus < k && IsValid(space, PciDevice(0, 0, f.bus)) && Present(space, f.bus, f)
    decreases k
  {
    if k > 0 {
      RootFunctionsMembers(space, k - 1, f);
      OnBusMembers(space, k - 1, f);
    }
  }

  lemma RootsAreOnRootBuses(register: Registers, header: Header, f: PciDevice)
    requires Reads(register, header)
    ensures f in Roots(Decoded(register)) <==> OnRootBus(header, f)
  {
    var space := Decoded(register);
    RootFunctionsMembers(space, 8, f);
    OnBusMembers(space, 0, f);
    PresentIsShown(register, header, f);
    SeesHeader(register, header, PciDevice(0, 0, 0));
    if f.bus < 8 { SeesHeader(register, header, PciDevice(0, 0, f.bus)); }
  }

  lemma PresentIsShown(register: Registers, header: Header, f: PciDevice)
    requires Reads(register, header)
    ensures Present(Decoded(register), f.bus, f) <==> Shown(header, f)
  {
    SeesHeader(register, header, f);
    SeesHeader(register, header, PciDevice(f.bus, f.device, 0));
  }

  lemma LeadsIsBridgesTo(register: Registers, header: Header, f: PciDevice, g: PciDevice)
    requires Reads(register, header)
    ensures Leads(Decoded(register), f, g) <==> BridgesTo(header, f, g)
  {
    SeesHeader(register, header, f);
    PresentIsShown(register, header, g);
    OnBusMembers(Decoded(register), SecondaryBus(Decoded(register), f), g);
  }

  lemma ChainIsRoute(register: Registers, header: Header, p: seq<PciDevice>)
    requires Reads(register, header)
    ensures Chain(Decoded(register), Roots(Decoded(register)), p) <==> Route(header, p)
  {
    if p != [] {
      RootsAreOnRootBuses(register, header, p[0]);
      forall i | 0 <= i < |p| - 1
        ensures Leads(Decoded(register), p[i], p[i + 1]) <==> BridgesTo(header, p[i], p[i + 1])
      {
        LeadsIsBridgesTo(register, header, p[i], p[i + 1]);
      }
    }
  }

  lemma ReachableIsAttached(register: Registers, header: Header, f: PciDevice)
    requires Reads(register, header)
    ensures Reachable(Decoded(register), Roots(Decoded(register)), f) <==> Attached(header, f)
  {
    var space := Decoded(register);
    if Reachable(space, Roots(space), f) {
      var p :| Chain(space, Roots(space), p) && p[|p| - 1] == f;
      ChainIsRoute(register, header, p);
    }
    if Attached(header, f) {
      var p :| Route(header, p) && p[|p| - 1] == f;
      ChainIsRoute(register, header, p);
    }
  }

  lemma CycleInHeader(register: Registers, header: Header, p: seq<PciDevice>, i: nat)
    requires Reads(register, header) && PointsAround(header, p, i)
    ensures HasCycle(Decoded(register), Roots(Decoded(register)))
  {
    ChainIsRoute(register, header, p);
    SeesHeader(register, header, p[|p| - 1]);
    assert PointsBack(Decoded(register), Roots(Decoded(register)), p, i);
  }

  lemma WayIsAttachedBy(register: Registers, header: Header, f: PciDevice, h: PciDevice)
    requires Reads(register, header)
    ensures WayTo(Decoded(register), Roots(Decoded(register)), f, h) <==> AttachedBy(header, f, h)
  {
    ReachableIsAttached(register, header, f);
    LeadsIsBridgesTo(register, header, f, h);
  }

  lemma OneWayIsAttachedOnce(register: Registers, header: Header)
    requires Reads(register, header)
    ensures OneWayToEach(Decoded(register), Roots(Decoded(register))) <==> AttachedOnce(header)
  {
    var space := Decoded(register);
    forall f, h
      ensures WayTo(space, Roots(space), f, h) <==> AttachedBy(header, f, h)
    {
      WayIsAttachedBy(register, header, f, h);
    }
    forall h
      ensures h in Roots(space) <==> OnRootBus(header, h)
    {
      RootsAreOnRootBuses(register, header, h);
    }
  }

  /**
    What a scan of an empty table comes to, on the bytes: if it succeeds the table holds exactly the functions that
    are attached, each once if and only if there is one way to each, and with a cycle of bridges it never succeeds.
   */
  ghost predicate Finds(header: Header, ok: bool, list: seq<PciDevice>) {
    && (ok ==> forall f :: f in list <==> Attached(header, f))
    && (ok ==> (NoDuplicates(list) <==> AttachedOnce(header)))
    && ((exists p, i :: PointsAround(header, p, i)) ==> !ok)
  }

  lemma ScanFinds(register: Registers, header: Header, ok: bool, list: seq<PciDevice>)
    requires Reads(register, header) && Outcome(Decoded(register), [], Roots(Decoded(register)), ok, list)
    ensures Finds(header, ok, list)
  {
    var space := Decoded(register);
    RootsAreOwn(space);
    RootsDistinct(space);
    WhatItMeans(space, [], Roots(space), ok, list);
    OneWayIsAttachedOnce(register, header);
    forall f
      ensures Reachable(space, Roots(space), f) <==> Attached(header, f)
    {
      ReachableIsAttached(register, header, f);
    }
    if p, i :| PointsAround(header, p, i) {
      CycleInHeader(register, header, p, i);
    }
  }

  // ---------------------------------------------------------------- the controller

  class PciController {
    const devices: array<PciDevice>
    var numDevices: nat

    ghost predicate Valid()
      reads this
    {
      devices.Length == CAPACITY && numDevices <= CAPACITY
    }

    ghost function List(): (l: seq<PciDevice>)
      requires Valid()
      reads this, devices
    {
      devices[..numDevices]
    }

    constructor ()
      ensures Valid() && List() == [] && fresh(devices)
    {
      devices := new PciDevice[CAPACITY];
      numDevices := 0;
    }

    method AddDevice(f: PciDevice) returns (ok: bool)
      requires Valid()
      modifies this, devices
      ensures Valid()
      ensures ok <==> |old(List())| < CAPACITY
      ensures List() == if ok then old(List()) + [f] else old(List())
    {
      if numDevices == devices.Length {
        return false;
      }
      devices[numDevices] := f;
      numDevices := numDevices + 1;
      ok := true;
    }

    /** The recursion ends because every descent through a bridge has first filled one more entry. */
    method ScanFunction(space: Space, f: PciDevice) returns (ok: bool)
      requires Valid()
      modifies this, devices
      ensures Valid() && Outcome(space, old(List()), [f], ok, List())
      decreases CAPACITY - numDevices, 0
    {
      ghost var before := List();
      ok := AddDevice(f);
      if !ok {
        NoRoom(space, before, f);
        return;
      }
      if IsBridge(space, f) {
        ok := ScanBus(space, SecondaryBus(space, f));
        BridgeThenBelow(space, before, f, ok, List());
      } else {
        PlainFunction(space, before, f);
      }
    }

    method ScanDevice(space: Space, bus: Bus, device: DeviceNo) returns (ok: bool)
      requires Valid() && IsValid(space, PciDevice(bus, device, 0))
      modifies this, devices
      ensures Valid() && Outcome(space, old(List()), DeviceFunctions(space, bus, device, 8), ok, List())
      decreases CAPACITY - numDevices, 1
    {
      ghost var before := List();
      var zero := PciDevice(bus, device, 0);
      ok := ScanFunction(space, zero);
      if !ok {
        DeviceStartsWithZero(space, bus, device, 1, 8);
        ThenGiveUp(space, before, [zero], DeviceFunctions(space, bus, device, 8)[1..], List());
        return;
      }
      if IsSingleFunction(space, zero) {
        SingleIsAlone(space, bus, device, 8);
        return;
      }
      var k := 1;
      while k < 8
        invariant 1 <= k <= 8 && Valid()
        invariant Outcome(space, before, DeviceFunctions(space, bus, device, k), true, List())
      {
        var f := PciDevice(bus, device, k);
        if IsValid(space, f) {
          ghost var mid := List();
          ok := ScanFunction(space, f);
          if !ok {
            ThenMore(space, before, DeviceFunctions(space, bus, device, k), mid, [f], false, List());
            DeviceStartsWithZero(space, bus, device, k + 1, 8);
            ThenGiveUp(space, before, DeviceFunctions(space, bus, device, k + 1),
                       DeviceFunctions(space, bus, device, 8)[|DeviceFunctions(space, bus, device, k + 1)|..], List());
            return;
          }
          ThenMore(space, before, DeviceFunctions(space, bus, device, k), mid, [f], true, List());
        } else {
          assert DeviceFunctions(space, bus, device, k + 1) == DeviceFunctions(space, bus, device, k);
        }
        k := k + 1;
      }
      ok := true;
    }

    method ScanBus(space: Space, bus: Bus) returns (ok: bool)
      requires Valid()
      modifies this, devices
      ensures Valid() && Outcome(space, old(List()), OnBus(space, bus), ok, List())
      decreases CAPACITY - numDevices, 2
    {
      ghost var before := List();
      NothingToScan(space, before);
      var d := 0;
      while d < 32
        invariant 0 <= d <= 32 && Valid()
        invariant Outcome(space, before, BusFunctions(space, bus, d), true, List())
      {
        if IsValid(space, PciDevice(bus, d, 0)) {
          ghost var mid := List();
          ok := ScanDevice(space, bus, d);
          ThenMore(space, before, BusFunctions(space, bus, d), mid, DeviceFunctions(space, bus, d, 8), ok, List());
          if !ok {
            BusContinues(space, bus, d + 1, 32);
            ThenGiveUp(space, before, BusFunctions(space, bus, d + 1),
                       BusFunctions(space, bus, 32)[|BusFunctions(space, bus, d + 1)|..], List());
            return;
          }
        } else {
          assert BusFunctions(space, bus, d + 1) == BusFunctions(space, bus, d);
        }
        d := d + 1;
      }
      ok := true;
    }

    /** The two branches of `ScanAllBus`. */
    method ScanRoots(space: Space) returns (ok: bool)
      requires Valid()
      modifies this, devices
      ensures Valid() && Outcome(space, old(List()), Roots(space), ok, List())
    {
      ghost var before := List();
      if IsSingleFunction(space, PciDevice(0, 0, 0)) {
        ok := ScanBus(space, 0);
        return;
      }
      NothingToScan(space, before);
      var k := 0;
      while k < 8
        invariant 0 <= k <= 8 && Valid()
        invariant Outcome(space, before, RootFunctions(space, k), true, List())
      {
        if IsValid(space, PciDevice(0, 0, k)) {
          ghost var mid := List();
          ok := ScanBus(space, k);
          ThenMore(space, before, RootFunctions(space, k), mid, OnBus(space, k), ok, List());
          if !ok {
            RootsContinue(space, k + 1, 8);
            ThenGiveUp(space, before, RootFunctions(space, k + 1),
                       RootFunctions(space, 8)[|RootFunctions(space, k + 1)|..], List());
            return;
          }
        } else {
          assert RootFunctions(space, k + 1) == RootFunctions(space, k);
        }
        k := k + 1;
      }
      ok := true;
    }

    method ScanAllBus(register: Registers) returns (ok: bool)
      requires Valid()
      modifies this, devices
      ensures Valid() && Outcome(Decoded(register), old(List()), Roots(Decoded(register)), ok, List())
      ensures ok && old(List()) == [] ==>
        forall f :: f in List() <==> Reachable(Decoded(register), Roots(Decoded(register)), f)
      ensures ok && old(List()) == [] ==>
        (NoDuplicates(List()) <==> OneWayToEach(Decoded(register), Roots(Decoded(register))))
      ensures HasCycle(Decoded(register), Roots(Decoded(register))) ==> !ok
      ensures old(List()) == [] ==> forall header: Header :: Reads(register, header) ==> Finds(header, ok, List())
    {
      var space := Decoded(register);
      ok := ScanRoots(space);
      RootsAreOwn(space);
      RootsDistinct(space);
      WhatItMeans(space, old(List()), Roots(space), ok, List());
      if old(List()) == [] {
        forall header: Header | Reads(register, header)
          ensures Finds(header, ok, List())
        {
          ScanFinds(register, header, ok, List());
        }
      }
    }
  }
}
