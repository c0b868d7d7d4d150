/**
 The growing argument store. The first named argument inserts a hidden slot at the front of the
 storage, which shifts everything, and every named argument refreshes the slot's pointer, since
 the array of names moves when it grows.
 */
module DynamicArgStore {
  import opened Options
  import opened FormatArgs

  class DynamicFormatArgStore<V> {
    var data: seq<Cell<V>>
    var namedInfo: array<NamedInfo>
    ghost var pushed: seq<Arg<V>>

    function Base(): nat
      reads this
    {
      if namedInfo.Length == 0 then 0 else 1
    }

    ghost predicate Valid()
      reads this, namedInfo
    {
      && |data| == |pushed| + Base()
      && namedInfo[..] == Infos(pushed)
      && (Base() == 1 ==> data[0] == NamedSlot(namedInfo, namedInfo.Length))
      && forall j :: Base() <= j < |data| ==>
           data[j] == ArgSlot(pushed[j - Base()].tag, pushed[j - Base()].value)
    }

    constructor ()
      ensures Valid() && pushed == [] && fresh(namedInfo)
    {
      data, pushed := [], [];
      namedInfo := new NamedInfo[0];
    }

    /** push_back of an argument without a name. */
    method Push(tag: Tag, value: V)
      requires Valid()
      modifies this
      ensures Valid() && pushed == old(pushed) + [Arg(tag, value, None)]
    {
      data := data + [ArgSlot(tag, value)];
      pushed := pushed + [Arg(tag, value, None)];
      assert pushed[..|pushed| - 1] == old(pushed);
    }

    /** push_back of a named argument. */
    method PushNamed(name: string, tag: Tag, value: V)
      requires Valid()
      modifies this
      ensures Valid() && pushed == old(pushed) + [Arg(tag, value, Some(name))]
      ensures fresh(namedInfo)
    {
      if namedInfo.Length == 0 {
        data := [NamedSlot(namedInfo, 0)] + data;
      }
      data := data + [ArgSlot(tag, value)];
      AppendInfo(NamedInfo(name, |data| - 2));
      data := data[0 := NamedSlot(namedInfo, namedInfo.Length)];
      pushed := pushed + [Arg(tag, value, Some(name))];
      assert pushed[..|pushed| - 1] == old(pushed);
    }

    /** push_back on the vector of names, which moves it. */
    method AppendInfo(info: NamedInfo)
      modifies this`namedInfo
      ensures fresh(namedInfo) && namedInfo[..] == old(namedInfo[..]) + [info]
    {
      var infos := namedInfo;
      var size := infos.Length;
      var grown := new NamedInfo[size + 1](_ => info);
      for i := 0 to size
        invariant forall k :: 0 <= k < i ==> grown[k] == infos[k]
        invariant grown[size] == info
      {
        grown[i] := infos[i];
      }
      assert grown[..size] == infos[..];
      namedInfo := grown;
    }

    method Clear()
      modifies this
      ensures Valid() && pushed == []
    {
      data, pushed := [], [];
      namedInfo := new NamedInfo[0];
    }

    /** get_types and data; the size in the descriptor counts the hidden slot. */
    function View(): ArgsView<V>
      requires |data| < INT_LIMIT
      reads this
    {
      ArgsView(Descriptor(true, namedInfo.Length != 0, |data|), data, Base())
    }

    lemma ViewShows()
      requires Valid() && |data| < INT_LIMIT
      ensures View().Shows(pushed, |data|) && View().Names(pushed)
    {
      InfosInRange(pushed);
      DescriptorBits(true, namedInfo.Length != 0, |data|);
    }

    /** Lookup by index, except at the number of pushed arguments once there are names. */
    method Get(id: nat) returns (r: Found<V>)
      requires Valid() && |data| < INT_LIMIT
      requires id != |pushed| || namedInfo.Length == 0
      ensures r == if id < |pushed| then FoundArg(pushed[id].tag, pushed[id].value) else NoArg
    {
      ViewShows();
      LookupByIndex(View(), pushed, |data|, id);
      return View().Get(id);
    }

    method GetByName(name: string) returns (r: Found<V>)
      requires Valid() && |data| < INT_LIMIT
      ensures r == var i := FirstNamed(pushed, name);
                   if i < |pushed| then FoundArg(pushed[i].tag, pushed[i].value) else NoArg
    {
      ViewShows();
      r := View().GetByName(name, pushed, |data|);
    }
  }
}
