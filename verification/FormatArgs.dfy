/**
 Formatting arguments and the view through which they are looked up. A 64-bit descriptor holds
 either the type tags of up to 15 arguments, four bits each, or the number of arguments, and in
 its two top bits the form it is in and whether there are named arguments. The names are
 reached through a hidden slot in front of the first argument.
 */
module FormatArgs {
  import opened Options
  import opened Words

  const MAX_PACKED: nat := 15
  const NAMED_BIT: nat := 0x4000_0000_0000_0000
  const UNPACKED_BIT: nat := 0x8000_0000_0000_0000
  const INT_LIMIT: nat := 0x8000_0000

  /** The type of an argument; zero means that there is none. */
  type Tag = n: nat | 0 < n < 16 witness 1

  datatype Arg<V> = Arg(tag: Tag, value: V, name: Option<string>)

  datatype NamedInfo = NamedInfo(name: string, id: nat)

  /** A slot of the argument storage; the hidden slot points to the names. */
  datatype Cell<V> = NamedSlot(infos: array<NamedInfo>, size: nat) | ValueSlot(value: V) | ArgSlot(tag: nat, value: V)

  // ---------------------------------------------------------------- the argument list

  predicate HasNames<V>(args: seq<Arg<V>>) {
    args != [] && (args[|args| - 1].name.Some? || HasNames(args[..|args| - 1]))
  }

  /** The named arguments with their positions, in order. */
  function Infos<V>(args: seq<Arg<V>>): (infos: seq<NamedInfo>)
  {
    if args == [] then []
    else
      var n := |args| - 1;
      Infos(args[..n]) + if args[n].name.Some? then [NamedInfo(args[n].name.value, n)] else []
  }

  /** The position of the first argument with a name, or the length of the list. */
  function FirstNamed<V>(args: seq<Arg<V>>, name: string): (i: nat)
    ensures i <= |args|
    ensures i < |args| ==> args[i].name == Some(name)
    ensures forall k :: 0 <= k < i ==> args[k].name != Some(name)
  {
    if args == [] then 0
    else
      var n := |args| - 1;
      var i := FirstNamed(args[..n], name);
      if i < n then i else if args[n].name == Some(name) then n else n + 1
  }

  /** The position of the first entry with a name, or the length of the list. */
  function FirstInfo(infos: seq<NamedInfo>, name: string): (i: nat)
    ensures i <= |infos|
    ensures i < |infos| ==> infos[i].name == name
    ensures forall k :: 0 <= k < i ==> infos[k].name != name
  {
    if infos == [] then 0
    else
      var n := |infos| - 1;
      var i := FirstInfo(infos[..n], name);
      if i < n then i else if infos[n].name == name then n else n + 1
  }

  lemma {:induction false} InfosInRange<V>(args: seq<Arg<V>>)
    ensures |Infos(args)| <= |args|
    ensures forall k :: 0 <= k < |Infos(args)| ==> Infos(args)[k].id < |args|
    ensures Infos(args) == [] <==> !HasNames(args)
  {
    if args != [] {
      InfosInRange(args[..|args| - 1]);
    }
  }

  lemma FirstInfoAppend(infos: seq<NamedInfo>, info: NamedInfo, name: string)
    ensures var i := FirstInfo(infos, name);
      FirstInfo(infos + [info], name)
      == if i < |infos| then i else if info.name == name then |infos| else |infos| + 1
  {
    assert (infos + [info])[..|infos|] == infos;
  }

  /** Scanning the named entries finds the first argument with the name. */
  lemma {:induction false} InfosFindFirst<V>(args: seq<Arg<V>>, name: string)
    ensures var i := FirstInfo(Infos(args), name);
      if i < |Infos(args)| then Infos(args)[i].id == FirstNamed(args, name)
      else FirstNamed(args, name) == |args|
  {
    if args != [] {
      var n := |args| - 1;
      var before := Infos(args[..n]);
      InfosFindFirst(args[..n], name);
      InfosInRange(args[..n]);
      if args[n].name.Some? {
        var info := NamedInfo(args[n].name.value, n);
        assert Infos(args) == before + [info];
        FirstInfoAppend(before, info, name);
      } else {
        assert Infos(args) == before;
      }
      hide FirstInfo, Infos;
    }
  }

  // ---------------------------------------------------------------- descriptors

  /** encode_types: the first tag in the low four bits, the others shifted up. */
  function EncodeTypes<V>(args: seq<Arg<V>>): (desc: nat)
    ensures desc < Pow2(4 * |args|)
  {
    if args == [] then 0
    else
      var rest := EncodeTypes(args[1..]);
      assert Pow2(4 * |args|) == 16 * Pow2(4 * |args[1..]|) by {
        Pow2Four(4 * |args[1..]|);
      }
      args[0].tag + 16 * rest
  }

  lemma Pow2Four(n: nat)
    ensures Pow2(n + 4) == 16 * Pow2(n)
  {
    assert Pow2(n + 4) == 2 * Pow2(n + 3) == 4 * Pow2(n + 2) == 8 * Pow2(n + 1);
  }

  /** type(index): shift and mask. */
  function TagAt(desc: nat, index: nat): (tag: nat)
    ensures tag < 16
  {
    desc / Pow2(4 * index) % 16
  }

  predicate IsPacked(desc: nat) {
    desc / UNPACKED_BIT % 2 == 0
  }

  predicate HasNamedArgs(desc: nat) {
    desc / NAMED_BIT % 2 == 1
  }

  /** static_cast to a 32-bit int. */
  function ToInt(n: nat): int {
    (n + INT_LIMIT) % (2 * INT_LIMIT) - INT_LIMIT
  }

  function MaxSize(desc: nat): int {
    if IsPacked(desc) then ToInt(MAX_PACKED) else ToInt(desc % UNPACKED_BIT)
  }

  /** Or-ing flag bits over a number that lies below them. */
  function Descriptor(unpacked: bool, named: bool, low: nat): (desc: nat)
    requires low < NAMED_BIT
    ensures desc < 2 * UNPACKED_BIT
  {
    (if unpacked then UNPACKED_BIT else 0) + (if named then NAMED_BIT else 0) + low
  }

  /** The flags can be told from the rest, and the rest from the flags. */
  lemma DescriptorBits(unpacked: bool, named: bool, low: nat)
    requires low < NAMED_BIT
    ensures var desc := Descriptor(unpacked, named, low);
      && (IsPacked(desc) <==> !unpacked)
      && (HasNamedArgs(desc) <==> named)
      && desc % UNPACKED_BIT == (if named then NAMED_BIT else 0) + low
  {
  }

  /** The size is not disturbed by the flag bits: bit 63 is masked and bit 62 is cut off by the cast. */
  lemma SizeSurvives(unpacked: bool, named: bool, low: nat)
    requires low < INT_LIMIT
    ensures MaxSize(Descriptor(unpacked, named, low)) == if unpacked then low else MAX_PACKED
  {
    DescriptorBits(unpacked, named, low);
  }

  lemma QuotientParts(a: nat, b: nat, r: nat, s: nat, t: nat)
    requires 0 < a && 0 < b && r < a && t < b
    ensures a * (b * s + t) + r == (a * b) * s + (a * t + r)
    ensures 0 <= a * t + r < a * b
  {
    assert a * (b * s + t) == a * (b * s) + a * t;
    assert a * (b * s) == (a * b) * s;
    var k: nat := b - t - 1;
    assert a * b == a * t + a + a * k;
    assert a * k >= 0 && a * t >= 0;
  }

  lemma QuotientOfParts(v: nat, a: nat, b: nat, r: nat, s: nat, t: nat)
    requires 0 < a && 0 < b && r < a && t < b
    requires v == a * (b * s + t) + r
    ensures a * b > 0 && v / (a * b) == s
  {
    QuotientParts(a, b, r, s, t);
    DivUnique(v, a * b, s, a * t + r);
  }

  lemma InParts(v: nat, a: nat)
    requires a > 0
    ensures v == a * (v / a) + v % a && v % a < a
  {
  }

  lemma DivDiv(v: nat, a: nat, b: nat)
    requires a > 0 && b > 0
    ensures a * b > 0 && (v / a) / b == v / (a * b)
  {
    var q := v / a;
    InParts(v, a);
    InParts(q, b);
    QuotientOfParts(v, a, b, v % a, q / b, q % b);
  }

  function Rest<V>(args: seq<Arg<V>>): seq<Arg<V>> {
    if args == [] then [] else args[1..]
  }

  function FirstTag<V>(args: seq<Arg<V>>): (tag: nat)
    ensures tag < 16
  {
    if args == [] then 0 else args[0].tag
  }

  /** The lowest four bits are the first tag, and the others encode the rest. */
  lemma PeelTag<V>(args: seq<Arg<V>>, high: nat, k: nat)
    requires k > 0
    ensures EncodeTypes(args) + high * Pow2(4 * k)
         == 16 * (EncodeTypes(Rest(args)) + high * Pow2(4 * (k - 1))) + FirstTag(args)
  {
    assert EncodeTypes(args) == 16 * EncodeTypes(Rest(args)) + FirstTag(args);
    hide Pow2, EncodeTypes, Rest, FirstTag;
    Pow2Four(4 * (k - 1));
    assert 4 * (k - 1) + 4 == 4 * k;
    PeelSum(EncodeTypes(args), EncodeTypes(Rest(args)), FirstTag(args), high, Pow2(4 * (k - 1)), Pow2(4 * k));
  }

  lemma PeelSum(all: nat, rest: nat, tag: nat, high: nat, p: nat, q: nat)
    requires all == 16 * rest + tag && q == 16 * p
    ensures all + high * q == 16 * (rest + high * p) + tag
  {
    assert high * (16 * p) == 16 * (high * p);
  }

  /** A tag further up is a tag of what is left after shifting out the first one. */
  lemma ShiftTag(desc: nat, i: nat)
    requires i > 0
    ensures TagAt(desc, i) == TagAt(desc / 16, i - 1)
  {
    Pow2Four(4 * (i - 1));
    hide Pow2;
    DivDiv(desc, 16, Pow2(4 * (i - 1)));
  }

  lemma LowestTag(desc: nat)
    ensures TagAt(desc, 0) == desc % 16
  {
  }

  /** Bits from k * 4 upwards do not disturb the tags below, and tags past the end read as none. */
  lemma {:induction false} TagsSurvive<V>(args: seq<Arg<V>>, high: nat, k: nat, i: nat)
    requires |args| <= k && i < k
    ensures TagAt(EncodeTypes(args) + high * Pow2(4 * k), i) == if i < |args| then args[i].tag else 0
    decreases k
  {
    hide Pow2, TagAt, EncodeTypes;
    var upper := EncodeTypes(Rest(args)) + high * Pow2(4 * (k - 1));
    var desc := EncodeTypes(args) + high * Pow2(4 * k);
    PeelTag(args, high, k);
    DivUnique(desc, 16, upper, FirstTag(args));
    if i > 0 {
      ShiftTag(desc, i);
      TagsSurvive(Rest(args), high, k - 1, i - 1);
    } else {
      LowestTag(desc);
    }
  }

  lemma TopTag()
    ensures 4 * Pow2(4 * MAX_PACKED) == NAMED_BIT
  {
    assert Pow2(15) == 0x8000;
    assert Pow2(30) == 0x4000_0000 by { Pow2Add(15, 15); }
    Pow2Add(30, 30);
  }

  // ---------------------------------------------------------------- lookups

  datatype Found<V> = NoArg | FoundArg(tag: nat, value: V)

  /** The loop over the names. */
  method FindInfo(infos: array<NamedInfo>, size: nat, name: string) returns (i: nat)
    requires size <= infos.Length
    ensures i == FirstInfo(infos[..size], name)
  {
    i := 0;
    while i < size && infos[i].name != name
      invariant i <= size && forall k :: 0 <= k < i ==> infos[k].name != name
    {
      i := i + 1;
    }
    FirstInfoIs(infos[..size], name, i);
  }

  /** basic_format_args: the descriptor, the storage, and where the first argument is in it. */
  datatype ArgsView<V> = ArgsView(desc: nat, cells: seq<Cell<V>>, base: nat)
  {
    /** A lookup by this index stays inside the storage and reads slots of the right form. */
    predicate Readable(id: nat) {
      if IsPacked(desc) then
        id < MAX_PACKED && TagAt(desc, id) != 0 ==> base + id < |cells| && cells[base + id].ValueSlot?
      else
        id < MaxSize(desc) ==> base + id < |cells| && cells[base + id].ArgSlot?
    }

    function Get(id: nat): Found<V>
      requires Readable(id)
    {
      if !IsPacked(desc) then
        if id < MaxSize(desc) then FoundArg(cells[base + id].tag, cells[base + id].value) else NoArg
      else if id >= MAX_PACKED || TagAt(desc, id) == 0 then NoArg
      else FoundArg(TagAt(desc, id), cells[base + id].value)
    }

    /** The view shows the arguments; size is the number in an unpacked descriptor. */
    ghost predicate Shows(args: seq<Arg<V>>, size: nat) {
      && |args| <= size && base + |args| <= |cells|
      && if |args| <= MAX_PACKED && size == |args| && IsPacked(desc) then
           && EncodeTypes(args) < NAMED_BIT
           && desc == Descriptor(false, HasNames(args), EncodeTypes(args))
           && forall j :: base <= j < base + |args| ==> cells[j] == ValueSlot(args[j - base].value)
         else
           && size < INT_LIMIT
           && desc == Descriptor(true, HasNames(args), size)
           && forall j :: base <= j < base + |args| ==> cells[j] == ArgSlot(args[j - base].tag, args[j - base].value)
    }

    /** The hidden slot leads to the names of the arguments. */
    ghost predicate Names(args: seq<Arg<V>>)
      reads if base == 1 && cells != [] && cells[0].NamedSlot? then {cells[0].infos} else {}
    {
      HasNames(args) ==>
        && base == 1 && cells != [] && cells[0].NamedSlot?
        && cells[0].size == cells[0].infos.Length && cells[0].infos[..] == Infos(args)
    }

    method GetId(name: string, ghost args: seq<Arg<V>>, ghost size: nat) returns (id: int)
      requires Shows(args, size) && Names(args)
      ensures id == if FirstNamed(args, name) < |args| then FirstNamed(args, name) else -1
    {
      ShowsFlag(this, args, size);
      InfosInRange(args);
      InfosFindFirst(args, name);
      hide Shows, HasNames, Infos, FirstNamed, FirstInfo, HasNamedArgs;
      if !HasNamedArgs(desc) {
        return -1;
      }
      var slot := cells[base - 1];
      var i := FindInfo(slot.infos, slot.size, name);
      assert slot.infos[..slot.size] == slot.infos[..];
      return if i < slot.size then slot.infos[i].id else -1;
    }

    method GetByName(name: string, ghost args: seq<Arg<V>>, ghost size: nat) returns (r: Found<V>)
      requires Shows(args, size) && Names(args)
      ensures r == var i := FirstNamed(args, name);
                   if i < |args| then FoundArg(args[i].tag, args[i].value) else NoArg
    {
      var id := GetId(name, args, size);
      if id < 0 {
        return NoArg;
      }
      LookupByIndex(this, args, size, id);
      return Get(id);
    }
  }

  lemma FirstInfoIs(infos: seq<NamedInfo>, name: string, i: nat)
    requires i <= |infos| && (i < |infos| ==> infos[i].name == name) && forall k :: 0 <= k < i ==> infos[k].name != name
    ensures FirstInfo(infos, name) == i
  {
  }

  lemma ShowsFlag<V>(v: ArgsView<V>, args: seq<Arg<V>>, size: nat)
    requires v.Shows(args, size)
    ensures HasNamedArgs(v.desc) <==> HasNames(args)
  {
    if |args| <= MAX_PACKED && size == |args| && IsPacked(v.desc) {
      DescriptorBits(false, HasNames(args), EncodeTypes(args));
    } else {
      DescriptorBits(true, HasNames(args), size);
    }
  }

  lemma PackedTag<V>(args: seq<Arg<V>>, i: nat)
    requires |args| <= MAX_PACKED && i < MAX_PACKED && EncodeTypes(args) < NAMED_BIT
    ensures TagAt(Descriptor(false, HasNames(args), EncodeTypes(args)), i) == if i < |args| then args[i].tag else 0
  {
    hide Pow2, TagAt, EncodeTypes, HasNames;
    TopTag();
    if HasNames(args) {
      TagsSurvive(args, 4, MAX_PACKED, i);
    } else {
      TagsSurvive(args, 0, MAX_PACKED, i);
    }
  }

  /** Lookup by index gives the argument with its type, and nothing past the end, in both forms. */
  lemma LookupByIndex<V>(v: ArgsView<V>, args: seq<Arg<V>>, size: nat, id: nat)
    requires v.Shows(args, size) && (id < |args| || id >= size)
    ensures v.Readable(id)
    ensures v.Get(id) == if id < |args| then FoundArg(args[id].tag, args[id].value) else NoArg
  {
    if |args| <= MAX_PACKED && size == |args| && IsPacked(v.desc) {
      if id < MAX_PACKED {
        PackedTag(args, id);
      }
    } else {
      DescriptorBits(true, HasNames(args), size);
      SizeSurvives(true, HasNames(args), size);
    }
  }
}
