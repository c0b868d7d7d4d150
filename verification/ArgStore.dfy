/**
 The store of a fixed argument list: up to 15 arguments are kept as plain values with their
 tags in the descriptor, longer lists as tagged arguments. A hidden slot in front leads to the
 names, whose array is filled after the slots.
 */
module ArgStore {
  import opened Options
  import opened Words
  import opened FormatArgs

  /** count_named_args. */
  function CountNamed<V>(args: seq<Arg<V>>): (count: nat)
  {
    if args == [] then 0 else (if args[0].name.Some? then 1 else 0) + CountNamed(args[1..])
  }

  lemma {:induction false} CountNamedAppend<V>(args: seq<Arg<V>>, arg: Arg<V>)
    ensures CountNamed(args + [arg]) == CountNamed(args) + if arg.name.Some? then 1 else 0
  {
    if args == [] {
      assert (args + [arg])[1..] == [];
    } else {
      assert (args + [arg])[1..] == args[1..] + [arg];
      CountNamedAppend(args[1..], arg);
    }
  }

  /** The array of names is as long as the list of named arguments. */
  lemma {:induction false} CountNamedIsInfos<V>(args: seq<Arg<V>>)
    ensures CountNamed(args) == |Infos(args)|
  {
    if args != [] {
      var n := |args| - 1;
      assert args == args[..n] + [args[n]];
      CountNamedAppend(args[..n], args[n]);
      CountNamedIsInfos(args[..n]);
    }
  }

  lemma {:induction false} InfosPrefix<V>(args: seq<Arg<V>>, k: nat)
    requires k <= |args|
    ensures Infos(args[..k]) <= Infos(args)
    decreases |args|
  {
    if k == |args| {
      assert args[..k] == args;
    } else {
      assert args[..|args| - 1][..k] == args[..k];
      InfosPrefix(args[..|args| - 1], k);
    }
  }

  /** One argument more: its entry, if it is named, is the next one. */
  lemma InfosNext<V>(args: seq<Arg<V>>, k: nat)
    requires k < |args|
    ensures var before := Infos(args[..k]);
      && Infos(args[..k + 1]) == before + (if args[k].name.Some? then [NamedInfo(args[k].name.value, k)] else [])
      && |Infos(args[..k + 1])| <= |Infos(args)|
  {
    assert args[..k + 1][..k] == args[..k];
    InfosPrefix(args, k + 1);
  }

  /** One call for each argument: named ones write the next entry of the array. */
  method InitNamedArgs<V>(named: array<NamedInfo>, argCount: nat, namedArgCount: nat, args: seq<Arg<V>>)
    requires argCount <= |args| && named.Length == |Infos(args)|
    requires namedArgCount == |Infos(args[..argCount])| <= named.Length
    requires named[..namedArgCount] == Infos(args[..argCount])
    modifies named
    ensures named[..] == Infos(args)
    decreases |args| - argCount
  {
    if argCount == |args| {
      assert args[..argCount] == args;
      return;
    }
    InfosNext(args, argCount);
    if args[argCount].name.Some? {
      named[namedArgCount] := NamedInfo(args[argCount].name.value, argCount);
      InitNamedArgs(named, argCount + 1, namedArgCount + 1, args);
    } else {
      InitNamedArgs(named, argCount + 1, namedArgCount, args);
    }
  }

  lemma EncodedFits<V>(args: seq<Arg<V>>)
    requires |args| <= MAX_PACKED
    ensures EncodeTypes(args) < NAMED_BIT
  {
    Pow2Monotone(4 * |args|, 4 * MAX_PACKED);
    TopTag();
  }

  class FormatArgStore<V> {
    const named: array<NamedInfo>
    const cells: seq<Cell<V>>
    const desc: nat

    constructor (args: seq<Arg<V>>)
      requires |args| < INT_LIMIT
      ensures fresh(named)
      ensures View().Shows(args, |args|) && View().Names(args)
    {
      var count := CountNamed(args);
      var infos := new NamedInfo[count](_ => NamedInfo([], 0));
      var hidden := if count == 0 then [] else [NamedSlot(infos, count)];
      named := infos;
      CountNamedIsInfos(args);
      InfosInRange(args);
      if |args| <= MAX_PACKED {
        EncodedFits(args);
        desc := Descriptor(false, count != 0, EncodeTypes(args));
        cells := hidden + seq(|args|, i requires 0 <= i < |args| => ValueSlot(args[i].value));
        DescriptorBits(false, count != 0, EncodeTypes(args));
      } else {
        desc := Descriptor(true, count != 0, |args|);
        cells := hidden + seq(|args|, i requires 0 <= i < |args| => ArgSlot(args[i].tag, args[i].value));
        DescriptorBits(true, count != 0, |args|);
      }
      new;
      assert args[..0] == [];
      InitNamedArgs(named, 0, 0, args);
    }

    /** The base is behind the hidden slot, if there is one. */
    function View(): ArgsView<V> {
      ArgsView(desc, cells, if HasNamedArgs(desc) then 1 else 0)
    }
  }

  /** Every lookup in the store of a list: the argument at an index, or the first one with a name. */
  method Lookup<V>(args: seq<Arg<V>>, id: nat, name: string) returns (byIndex: Found<V>, byName: Found<V>)
    requires |args| < INT_LIMIT
    ensures byIndex == if id < |args| then FoundArg(args[id].tag, args[id].value) else NoArg
    ensures byName == var i := FirstNamed(args, name);
                      if i < |args| then FoundArg(args[i].tag, args[i].value) else NoArg
  {
    var store := new FormatArgStore(args);
    LookupByIndex(store.View(), args, |args|, id);
    byIndex := store.View().Get(id);
    byName := store.View().GetByName(name, args, |args|);
  }
}
