/**
  Grouping the flat list of descriptors that a device returns for one configuration
  (section 9.6 of the USB 2.0 specification) into interfaces and alternate settings.
 */
module UsbDescriptors {
  import opened Common

  type Byte = x: int | 0 <= x < 256

  /** Only the fields the driver looks at are named; `rest` stands for the others. */
  datatype ConfigurationDescriptor = ConfigurationDescriptor(
    value: Byte, iConfiguration: Byte, attributes: Byte, maxPower: Byte, rest: nat)

  datatype InterfaceDescriptor = InterfaceDescriptor(
    number: Byte, alternate: Byte, class_: Byte, subclass: Byte, protocol: Byte, iInterface: Byte, rest: nat)

  datatype Descriptor =
    | Configuration(conf: ConfigurationDescriptor)
    | Interface(intf: InterfaceDescriptor)
    | Endpoint(content: seq<Byte>)
    | Hid(content: seq<Byte>)
    | Unknown(content: seq<Byte>)

  datatype UsbInterfaceAlternate = UsbInterfaceAlternate(
    endpoints: seq<Descriptor>, interfaceNum: Byte, alternateSetting: Byte,
    class_: Byte, subclass: Byte, protocol: Byte, iInterface: Byte)

  datatype UsbInterface = UsbInterface(interfaceNum: Byte, alternates: seq<UsbInterfaceAlternate>)

  datatype UsbConfiguration = UsbConfiguration(
    interfaces: seq<UsbInterface>, value: Byte, iConfiguration: Byte, attributes: Byte, maxPower: Byte)

  function NewAlternate(d: InterfaceDescriptor, endpoints: seq<Descriptor>): UsbInterfaceAlternate {
    UsbInterfaceAlternate(endpoints, d.number, d.alternate, d.class_, d.subclass, d.protocol, d.iInterface)
  }

  function NewConfiguration(d: ConfigurationDescriptor, interfaces: seq<UsbInterface>): UsbConfiguration {
    UsbConfiguration(interfaces, d.value, d.iConfiguration, d.attributes, d.maxPower)
  }

  // ---------------------------------------------------------------- runs of plain descriptors

  predicate IsPlain(d: Descriptor) {
    !d.Interface? && !d.Configuration?
  }

  /** How many descriptors before the first Interface or Configuration. */
  ghost function PlainRun(ds: seq<Descriptor>): (n: nat)
    ensures n <= |ds|
    ensures forall i :: 0 <= i < n ==> IsPlain(ds[i])
    ensures n < |ds| ==> !IsPlain(ds[n])
  {
    if ds == [] || !IsPlain(ds[0]) then 0 else 1 + PlainRun(ds[1..])
  }

  lemma PlainRunIs(ds: seq<Descriptor>, n: nat)
    requires n <= |ds| && (forall i :: 0 <= i < n ==> IsPlain(ds[i])) && (n < |ds| ==> !IsPlain(ds[n]))
    ensures PlainRun(ds) == n
  {
  }

  // ---------------------------------------------------------------- what the loops compute

  /** `construct_interface_alternate`: None also when a Configuration cuts the run short. */
  ghost function Alternate(ds: seq<Descriptor>): (r: Option<(UsbInterfaceAlternate, seq<Descriptor>)>)
    ensures r.Some? ==> |r.value.1| < |ds|
  {
    if ds == [] || !ds[0].Interface? then None
    else
      var n := PlainRun(ds[1..]) + 1;
      if n < |ds| && ds[n].Configuration? then None
      else Some((NewAlternate(ds[0].intf, ds[1..n]), ds[n..]))
  }

  /** The alternates of interface `num` at the front of `ds`, and what follows them. */
  ghost function Alternates(ds: seq<Descriptor>, num: Byte): (r: (seq<UsbInterfaceAlternate>, seq<Descriptor>))
    ensures |r.1| <= |ds| && (r.0 != [] ==> |r.1| < |ds|)
    decreases |ds|
  {
    var a := Alternate(ds);
    if a.None? || a.value.0.interfaceNum != num then ([], ds)
    else
      var (rest, left) := Alternates(a.value.1, num);
      ([a.value.0] + rest, left)
  }

  ghost function NextInterface(ds: seq<Descriptor>): (r: Option<(UsbInterface, seq<Descriptor>)>)
    ensures r.Some? ==> |r.value.1| <= |ds|
  {
    if ds == [] || !ds[0].Interface? then None
    else
      var (alts, left) := Alternates(ds, ds[0].intf.number);
      Some((UsbInterface(ds[0].intf.number, alts), left))
  }

  // ---------------------------------------------------------------- the way back: flattening

  /** A descriptor with the fields that the driver drops set to zero. */
  function Keep(d: Descriptor): Descriptor {
    match d
    case Configuration(c) => Configuration(c.(rest := 0))
    case Interface(i) => Interface(i.(rest := 0))
    case _ => d
  }

  function Kept(ds: seq<Descriptor>): seq<Descriptor> {
    seq(|ds|, i requires 0 <= i < |ds| => Keep(ds[i]))
  }

  function FlatAlternate(a: UsbInterfaceAlternate): seq<Descriptor> {
    [Interface(InterfaceDescriptor(
       a.interfaceNum, a.alternateSetting, a.class_, a.subclass, a.protocol, a.iInterface, 0))]
      + a.endpoints
  }

  function FlatAlternates(alts: seq<UsbInterfaceAlternate>): seq<Descriptor> {
    if alts == [] then [] else FlatAlternate(alts[0]) + FlatAlternates(alts[1..])
  }

  function FlatInterfaces(intfs: seq<UsbInterface>): seq<Descriptor> {
    if intfs == [] then [] else FlatAlternates(intfs[0].alternates) + FlatInterfaces(intfs[1..])
  }

  function Flatten(c: UsbConfiguration): seq<Descriptor> {
    [Configuration(ConfigurationDescriptor(c.value, c.iConfiguration, c.attributes, c.maxPower, 0))]
      + FlatInterfaces(c.interfaces)
  }

  predicate PlainEndpoints(a: UsbInterfaceAlternate) {
    forall i :: 0 <= i < |a.endpoints| ==> IsPlain(a.endpoints[i])
  }

  predicate AllNumbered(alts: seq<UsbInterfaceAlternate>, num: Byte) {
    forall i :: 0 <= i < |alts| ==> alts[i].interfaceNum == num && PlainEndpoints(alts[i])
  }

  predicate GoodInterface(intf: UsbInterface) {
    intf.alternates != [] && AllNumbered(intf.alternates, intf.interfaceNum)
  }

  /** Maximal grouping: settings share their interface's number and neighbours differ in number. */
  predicate WellGrouped(intfs: seq<UsbInterface>) {
    && (forall i :: 0 <= i < |intfs| ==> GoodInterface(intfs[i]))
    && (forall i :: 0 < i < |intfs| ==> intfs[i - 1].interfaceNum != intfs[i].interfaceNum)
  }

  // ---------------------------------------------------------------- when the outer loop ends

  ghost predicate HasConfiguration(ds: seq<Descriptor>) {
    exists i :: 0 <= i < |ds| && ds[i].Configuration?
  }

  predicate StartsInterface(ds: seq<Descriptor>) {
    ds != [] && ds[0].Interface?
  }

  /** The condition a caller can check: an Interface in front and a Configuration behind is the bad case. */
  ghost predicate Parsable(ds: seq<Descriptor>) {
    StartsInterface(ds) ==> !HasConfiguration(ds)
  }

  /** The interface loop, entered with `ds` left to read, is over after at most `turns` turns. */
  ghost predicate Halts(ds: seq<Descriptor>, turns: nat)
    decreases turns
  {
    NextInterface(ds).None? || (turns > 0 && Halts(NextInterface(ds).value.1, turns - 1))
  }

  /** Where the run of plain descriptors after an Interface ends. */
  lemma RunAfterInterface(ds: seq<Descriptor>) returns (n: nat)
    requires StartsInterface(ds)
    ensures n == PlainRun(ds[1..]) + 1 <= |ds| && (n < |ds| ==> !IsPlain(ds[n]))
    ensures forall i :: 1 <= i < n ==> IsPlain(ds[i])
  {
    n := PlainRun(ds[1..]) + 1;
    assert n < |ds| ==> ds[n] == ds[1..][n - 1];
    assert forall i :: 1 <= i < n ==> ds[i] == ds[1..][i - 1];
  }

  /** Without a Configuration an alternate is read, and what is left starts with the next Interface. */
  lemma AlternateReads(ds: seq<Descriptor>)
    requires StartsInterface(ds) && !HasConfiguration(ds)
    ensures Alternate(ds).Some?
    ensures var (a, left) := Alternate(ds).value;
      && PlainEndpoints(a) && a.interfaceNum == ds[0].intf.number
      && !HasConfiguration(left) && (left != [] ==> StartsInterface(left))
  {
    var n := RunAfterInterface(ds);
    var left := ds[n..];
    assert forall i :: 0 <= i < |left| ==> left[i] == ds[n + i];
  }

  /** Flattening it gives back the descriptors that were consumed. */
  lemma AlternateKept(ds: seq<Descriptor>)
    requires StartsInterface(ds) && !HasConfiguration(ds)
    ensures Alternate(ds).Some?
    ensures Kept(ds) == FlatAlternate(Alternate(ds).value.0) + Kept(Alternate(ds).value.1)
  {
    AlternateReads(ds);
    var n := RunAfterInterface(ds);
    var (a, left) := Alternate(ds).value;
    assert FlatAlternate(a) == [Keep(ds[0])] + ds[1..n];
    assert forall i :: 1 <= i < n ==> Keep(ds[i]) == ds[i];
  }

  /** What `Alternates` leaves behind starts with an interface of another number. */
  ghost predicate StopsBefore(left: seq<Descriptor>, num: Byte) {
    left != [] ==> StartsInterface(left) && !HasConfiguration(left) && left[0].intf.number != num
  }

  lemma {:induction false} AlternatesNumbered(ds: seq<Descriptor>, num: Byte)
    requires ds != [] ==> StartsInterface(ds) && !HasConfiguration(ds)
    ensures AllNumbered(Alternates(ds, num).0, num)
    ensures StartsInterface(ds) && ds[0].intf.number == num ==> Alternates(ds, num).0 != []
    ensures StopsBefore(Alternates(ds, num).1, num)
    decreases |ds|
  {
    if ds != [] {
      AlternateReads(ds);
      if ds[0].intf.number == num {
        AlternatesNumbered(Alternate(ds).value.1, num);
      }
    }
  }

  lemma {:induction false} AlternatesKept(ds: seq<Descriptor>, num: Byte)
    requires ds != [] ==> StartsInterface(ds) && !HasConfiguration(ds)
    ensures Kept(ds) == FlatAlternates(Alternates(ds, num).0) + Kept(Alternates(ds, num).1)
    decreases |ds|
  {
    if ds != [] {
      AlternateReads(ds);
      AlternateKept(ds);
    }
    if ds == [] || ds[0].intf.number != num {
      assert FlatAlternates([]) + Kept(ds) == Kept(ds);
    } else {
      var (a, next) := Alternate(ds).value;
      AlternatesKept(next, num);
      var (rest, left) := Alternates(next, num);
      FlatOneMore(a, rest, Kept(left));
    }
  }

  lemma FlatOneMore(a: UsbInterfaceAlternate, rest: seq<UsbInterfaceAlternate>, more: seq<Descriptor>)
    ensures FlatAlternates([a] + rest) + more == FlatAlternate(a) + (FlatAlternates(rest) + more)
  {
    assert ([a] + rest)[1..] == rest;
  }

  lemma NextInterfaceReads(ds: seq<Descriptor>)
    requires StartsInterface(ds) && !HasConfiguration(ds)
    ensures NextInterface(ds).Some?
    ensures var (intf, left) := NextInterface(ds).value;
      && Kept(ds) == FlatAlternates(intf.alternates) + Kept(left)
      && GoodInterface(intf) && |left| < |ds|
      && (left != [] ==> StartsInterface(left) && !HasConfiguration(left) && left[0].intf.number != intf.interfaceNum)
      && intf.interfaceNum == ds[0].intf.number
  {
    AlternatesNumbered(ds, ds[0].intf.number);
    AlternatesKept(ds, ds[0].intf.number);
  }

  /** Without a Configuration each turn of the outer loop consumes something and stays clear of one. */
  lemma NextInterfaceConsumes(ds: seq<Descriptor>)
    requires StartsInterface(ds) && !HasConfiguration(ds)
    ensures NextInterface(ds).Some? && |NextInterface(ds).value.1| < |ds| && Parsable(NextInterface(ds).value.1)
  {
    AlternatesNumbered(ds, ds[0].intf.number);
  }

  /** The interfaces that the outer loop collects, on every input where it ends. */
  ghost function Interfaces(ds: seq<Descriptor>): (r: seq<UsbInterface>)
    requires Parsable(ds)
    decreases |ds|
  {
    if !StartsInterface(ds) then []
    else
      NextInterfaceConsumes(ds);
      var (intf, left) := NextInterface(ds).value;
      [intf] + Interfaces(left)
  }

  lemma {:induction false} HaltsWhenParsable(ds: seq<Descriptor>)
    requires Parsable(ds)
    ensures Halts(ds, |ds|)
    decreases |ds|
  {
    if StartsInterface(ds) {
      NextInterfaceReads(ds);
      var left := NextInterface(ds).value.1;
      HaltsWhenParsable(left);
      HaltsLonger(left, |left|, |ds| - 1);
    }
  }

  lemma {:induction false} HaltsLonger(ds: seq<Descriptor>, turns: nat, more: nat)
    requires Halts(ds, turns) && turns <= more
    ensures Halts(ds, more)
    decreases turns
  {
    if NextInterface(ds).Some? {
      HaltsLonger(NextInterface(ds).value.1, turns - 1, more - 1);
    }
  }

  /** Reading an alternate setting never gets past a Configuration. */
  lemma AlternateKeepsConfiguration(ds: seq<Descriptor>)
    requires StartsInterface(ds) && HasConfiguration(ds) && Alternate(ds).Some?
    ensures StartsInterface(Alternate(ds).value.1) && HasConfiguration(Alternate(ds).value.1)
  {
    var i :| 0 <= i < |ds| && ds[i].Configuration?;
    var n := PlainRun(ds[1..]) + 1;
    assert forall j :: 1 <= j < n ==> ds[j] == ds[1..][j - 1];
    assert n <= i;
    assert ds[n] == ds[1..][n - 1];
    assert ds[n..][i - n] == ds[i];
  }

  lemma {:induction false} AlternatesKeepConfiguration(ds: seq<Descriptor>, num: Byte)
    requires StartsInterface(ds) && HasConfiguration(ds)
    ensures StartsInterface(Alternates(ds, num).1) && HasConfiguration(Alternates(ds, num).1)
    decreases |ds|
  {
    if Alternate(ds).Some? && Alternate(ds).value.0.interfaceNum == num {
      AlternateKeepsConfiguration(ds);
      AlternatesKeepConfiguration(Alternate(ds).value.1, num);
    }
  }

  lemma {:induction false} NeverHalts(ds: seq<Descriptor>, turns: nat)
    requires StartsInterface(ds) && HasConfiguration(ds)
    ensures !Halts(ds, turns)
    decreases turns
  {
    AlternatesKeepConfiguration(ds, ds[0].intf.number);
    if turns > 0 {
      NeverHalts(NextInterface(ds).value.1, turns - 1);
    }
  }

  ghost predicate Returns(ds: seq<Descriptor>) {
    exists turns: nat :: Halts(ds, turns)
  }

  /** Exactly when `construct_configuration` returns at all. */
  lemma HaltsIffParsable(ds: seq<Descriptor>)
    ensures Returns(ds) <==> Parsable(ds)
  {
    if Parsable(ds) {
      HaltsWhenParsable(ds);
    } else {
      forall turns: nat ensures !Halts(ds, turns) {
        NeverHalts(ds, turns);
      }
    }
  }

  // ---------------------------------------------------------------- round trips

  lemma {:induction false} InterfacesKept(ds: seq<Descriptor>)
    requires ds != [] ==> StartsInterface(ds) && !HasConfiguration(ds)
    ensures Kept(ds) == FlatInterfaces(Interfaces(ds))
    decreases |ds|
  {
    if ds != [] {
      NextInterfaceReads(ds);
      InterfacesKept(NextInterface(ds).value.1);
      assert Interfaces(ds)[1..] == Interfaces(NextInterface(ds).value.1);
    }
  }

  lemma {:induction false} InterfacesGrouped(ds: seq<Descriptor>)
    requires ds != [] ==> StartsInterface(ds) && !HasConfiguration(ds)
    ensures WellGrouped(Interfaces(ds))
    ensures ds != [] ==> Interfaces(ds) != [] && Interfaces(ds)[0].interfaceNum == ds[0].intf.number
    ensures ds == [] ==> Interfaces(ds) == []
    decreases |ds|
  {
    if ds != [] {
      NextInterfaceReads(ds);
      var (intf, left) := NextInterface(ds).value;
      InterfacesGrouped(left);
      GroupedOneMore(intf, Interfaces(left));
    }
  }

  lemma GroupedOneMore(intf: UsbInterface, rest: seq<UsbInterface>)
    requires GoodInterface(intf) && WellGrouped(rest) && (rest != [] ==> rest[0].interfaceNum != intf.interfaceNum)
    ensures WellGrouped([intf] + rest)
  {
    var all := [intf] + rest;
    forall i | 0 < i < |all|
      ensures all[i - 1].interfaceNum != all[i].interfaceNum
    {
      if i > 1 {
        assert rest[i - 1 - 1].interfaceNum != rest[i - 1].interfaceNum;
      }
    }
  }

  lemma AlternateOfFlat(a: UsbInterfaceAlternate, rest: seq<Descriptor>)
    requires PlainEndpoints(a) && (rest != [] ==> StartsInterface(rest))
    ensures Alternate(FlatAlternate(a) + rest) == Some((a, rest))
  {
    var ds := FlatAlternate(a) + rest;
    assert ds[1..] == a.endpoints + rest;
    PlainRunIs(ds[1..], |a.endpoints|);
    var n := |a.endpoints| + 1;
    assert n < |ds| ==> ds[n] == rest[0];
    assert ds[1..n] == a.endpoints && ds[n..] == rest;
  }

  lemma {:induction false} AlternatesOfFlat(alts: seq<UsbInterfaceAlternate>, num: Byte, rest: seq<Descriptor>)
    requires AllNumbered(alts, num)
    requires rest != [] ==> StartsInterface(rest) && rest[0].intf.number != num
    ensures Alternates(FlatAlternates(alts) + rest, num) == (alts, rest)
    ensures alts != [] ==> StartsInterface(FlatAlternates(alts)) && FlatAlternates(alts)[0].intf.number == num
    decreases |alts|
  {
    if alts == [] {
      assert FlatAlternates(alts) + rest == rest;
    } else {
      var a, others := alts[0], alts[1..];
      AlternatesOfFlat(others, num, rest);
      assert alts == [a] + others;
      FlatOneMore(a, others, rest);
      AlternateOfFlat(a, FlatAlternates(others) + rest);
    }
  }

  lemma {:induction false} FlatAlternatesHoldNoConfiguration(alts: seq<UsbInterfaceAlternate>, num: Byte)
    requires AllNumbered(alts, num)
    ensures !HasConfiguration(FlatAlternates(alts))
    decreases |alts|
  {
    if alts != [] {
      FlatAlternatesHoldNoConfiguration(alts[1..], num);
      assert PlainEndpoints(alts[0]);
    }
  }

  lemma {:induction false} FlatHoldsNoConfiguration(intfs: seq<UsbInterface>)
    requires WellGrouped(intfs)
    ensures !HasConfiguration(FlatInterfaces(intfs))
    decreases |intfs|
  {
    if intfs != [] {
      assert GoodInterface(intfs[0]);
      FlatAlternatesHoldNoConfiguration(intfs[0].alternates, intfs[0].interfaceNum);
      FlatHoldsNoConfiguration(intfs[1..]);
    }
  }

  /** Reading back a flattened grouping gives the grouping: no other well-formed one has the same list. */
  lemma {:induction false} InterfacesOfFlat(intfs: seq<UsbInterface>)
    requires WellGrouped(intfs)
    ensures !HasConfiguration(FlatInterfaces(intfs)) && Interfaces(FlatInterfaces(intfs)) == intfs
    decreases |intfs|
  {
    FlatHoldsNoConfiguration(intfs);
    if intfs != [] {
      InterfacesOfFlat(intfs[1..]);
      NextOfFlat(intfs);
      assert intfs == [intfs[0]] + intfs[1..];
    }
  }

  lemma FlatStarts(intfs: seq<UsbInterface>)
    requires WellGrouped(intfs) && intfs != []
    ensures StartsInterface(FlatInterfaces(intfs)) && FlatInterfaces(intfs)[0].intf.number == intfs[0].interfaceNum
  {
    assert GoodInterface(intfs[0]);
    AlternatesOfFlat(intfs[0].alternates, intfs[0].interfaceNum, []);
  }

  /** Reading the front of a flattened grouping gives its first interface and leaves the rest flattened. */
  lemma NextOfFlat(intfs: seq<UsbInterface>)
    requires WellGrouped(intfs) && intfs != []
    ensures StartsInterface(FlatInterfaces(intfs))
    ensures NextInterface(FlatInterfaces(intfs)) == Some((intfs[0], FlatInterfaces(intfs[1..])))
  {
    assert GoodInterface(intfs[0]);
    FlatStarts(intfs);
    if intfs[1..] != [] { FlatStarts(intfs[1..]); }
    AlternatesOfFlat(intfs[0].alternates, intfs[0].interfaceNum, FlatInterfaces(intfs[1..]));
  }

  lemma Lossless(ds: seq<Descriptor>, c: UsbConfiguration)
    requires ds != [] && ds[0].Configuration? && Parsable(ds[1..])
    requires c == NewConfiguration(ds[0].conf, Interfaces(ds[1..]))
    ensures Flatten(c) == Kept(ds) <==> |ds| == 1 || ds[1].Interface?
    ensures WellGrouped(c.interfaces)
  {
    var tail := ds[1..];
    assert Kept(ds) == [Keep(ds[0])] + Kept(tail);
    if tail != [] && !StartsInterface(tail) {
      assert Interfaces(tail) == [];
    } else {
      InterfacesKept(tail);
      InterfacesGrouped(tail);
    }
  }

  /**
    The round trip for a whole list: nothing is lost exactly when the tail is empty or starts with an
    Interface, and then the result is the one grouping that flattens back to the list.
   */
  lemma RoundTrip(ds: seq<Descriptor>, c: UsbConfiguration)
    requires ds != [] && ds[0].Configuration? && Parsable(ds[1..])
    requires c == NewConfiguration(ds[0].conf, Interfaces(ds[1..]))
    ensures Flatten(c) == Kept(ds) <==> |ds| == 1 || ds[1].Interface?
    ensures WellGrouped(c.interfaces)
    ensures forall other: UsbConfiguration ::
      WellGrouped(other.interfaces) && Flatten(other) == Kept(ds) ==> other == c
  {
    Lossless(ds, c);
    forall other: UsbConfiguration | WellGrouped(other.interfaces) && Flatten(other) == Kept(ds)
      ensures other == c
    {
      OnlyOne(ds, c, other);
    }
  }

  lemma OnlyOne(ds: seq<Descriptor>, c: UsbConfiguration, other: UsbConfiguration)
    requires ds != [] && ds[0].Configuration? && Parsable(ds[1..])
    requires c == NewConfiguration(ds[0].conf, Interfaces(ds[1..]))
    requires WellGrouped(other.interfaces) && Flatten(other) == Kept(ds)
    ensures other == c
  {
    var tail := ds[1..];
    assert Kept(ds)[0] == Keep(ds[0]) && Flatten(other)[0] == Kept(ds)[0];
    assert FlatInterfaces(other.interfaces) == Flatten(other)[1..] == Kept(ds)[1..] == Kept(tail);
    InterfacesOfFlat(other.interfaces);
    if tail != [] {
      assert Kept(tail)[0] == Keep(tail[0]);
      InterfacesKept(tail);
      InterfacesGrouped(tail);
      InterfacesOfFlat(Interfaces(tail));
    }
  }

  // ---------------------------------------------------------------- the methods

  method ConstructInterfaceAlternate(ds: seq<Descriptor>) returns (r: Option<(UsbInterfaceAlternate, seq<Descriptor>)>)
    ensures r == Alternate(ds)
  {
    if |ds| == 0 || !ds[0].Interface? {
      return None;
    }
    var alt := ds[0].intf;
    var eps: seq<Descriptor> := [];
    var i := 1;
    while i < |ds|
      invariant 1 <= i <= |ds| && eps == ds[1..i]
      invariant forall j :: 1 <= j < i ==> IsPlain(ds[j])
    {
      match ds[i] {
        case Interface(_) =>
          PlainRunIs(ds[1..], i - 1);
          return Some((NewAlternate(alt, eps), ds[i..]));
        case Configuration(_) =>
          PlainRunIs(ds[1..], i - 1);
          return None;
        case _ =>
          eps := eps + [ds[i]];
      }
      i := i + 1;
    }
    PlainRunIs(ds[1..], |ds| - 1);
    r := Some((NewAlternate(alt, eps), ds[|ds|..]));
  }

  method ConstructInterface(ds: seq<Descriptor>) returns (r: Option<(UsbInterface, seq<Descriptor>)>)
    ensures r == NextInterface(ds)
  {
    if |ds| == 0 || !ds[0].Interface? {
      return None;
    }
    var num := ds[0].intf.number;
    var alts: seq<UsbInterfaceAlternate> := [];
    var left := ds;
    assert Alternates(ds, num).0 == [] + Alternates(ds, num).0;
    while true
      invariant |left| <= |ds|
      invariant Alternates(ds, num) == (alts + Alternates(left, num).0, Alternates(left, num).1)
      decreases |left|
    {
      var a := ConstructInterfaceAlternate(left);
      if a.None? || a.value.0.interfaceNum != num {
        assert alts + [] == alts;
        break;
      }
      assert alts + ([a.value.0] + Alternates(a.value.1, num).0) == (alts + [a.value.0]) + Alternates(a.value.1, num).0;
      alts := alts + [a.value.0];
      left := a.value.1;
    }
    r := Some((UsbInterface(num, alts), left));
  }

  /** One turn of the outer loop. */
  lemma OneInterfaceMore(left: seq<Descriptor>, done: seq<UsbInterface>, all: seq<UsbInterface>)
    requires Parsable(left) && NextInterface(left).Some? && all == done + Interfaces(left)
    ensures var (intf, next) := NextInterface(left).value;
      |next| < |left| && Parsable(next) && all == done + [intf] + Interfaces(next)
  {
    NextInterfaceConsumes(left);
    var (intf, next) := NextInterface(left).value;
    assert Interfaces(left) == [intf] + Interfaces(next);
    assert done + ([intf] + Interfaces(next)) == done + [intf] + Interfaces(next);
  }

  method ConstructConfiguration(ds: seq<Descriptor>) returns (r: Option<UsbConfiguration>)
    requires ds != [] && ds[0].Configuration? ==> Parsable(ds[1..])
    ensures r.Some? <==> ds != [] && ds[0].Configuration?
    ensures r.Some? ==> r.value == NewConfiguration(ds[0].conf, Interfaces(ds[1..]))
    ensures r.Some? ==> WellGrouped(r.value.interfaces)
    ensures r.Some? ==> (Flatten(r.value) == Kept(ds) <==> |ds| == 1 || ds[1].Interface?)
  {
    if |ds| == 0 || !ds[0].Configuration? {
      return None;
    }
    var left := ds[1..];
    var intfs: seq<UsbInterface> := [];
    while true
      invariant Parsable(left)
      invariant Interfaces(ds[1..]) == intfs + Interfaces(left)
      decreases |left|
    {
      var next := ConstructInterface(left);
      if next.None? {
        break;
      }
      OneInterfaceMore(left, intfs, Interfaces(ds[1..]));
      intfs := intfs + [next.value.0];
      left := next.value.1;
    }
    r := Some(NewConfiguration(ds[0].conf, intfs));
    Lossless(ds, r.value);
  }
}
