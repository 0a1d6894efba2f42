/** `execute` of the component modification tool: the parsed actions are
    grouped by the component they address, one callback is fired per
    component with its group, and the reply lists the components. */
module ModifyComponent {
  import opened Wrappers
  import opened JsValues
  import opened Files
  import opened Actions

  /** The property key `acc[item.comId]` uses: `String(comId)`. */
  function Key(a: Action): string {
    ToStr(a.comId)
  }

  /** The keys of the grouping object, in the order they were first seen. */
  function GroupKeys(s: seq<Action>): (keys: seq<string>)
    ensures NoDuplicates(keys)
    ensures forall k :: k in keys <==> exists i | 0 <= i < |s| :: Key(s[i]) == k
  {
    if s == [] then []
    else
      var n := |s| - 1;
      var keys := GroupKeys(s[..n]);
      assert forall i | 0 <= i < n :: s[..n][i] == s[i];
      SetAdd(keys, Key(s[n]))
  }

  /** The group of key `k`: the actions addressed to it, in their order. */
  function Group(s: seq<Action>, k: string): (g: seq<Action>)
    ensures forall a | a in g :: Key(a) == k && a in s
    ensures forall i | 0 <= i < |s| && Key(s[i]) == k :: s[i] in g
  {
    if s == [] then []
    else
      var n := |s| - 1;
      var g := Group(s[..n], k);
      assert forall i | 0 <= i < n :: s[..n][i] == s[i];
      g + (if Key(s[n]) == k then [s[n]] else [])
  }

  /** Appending an action adds its key when it is new. */
  lemma GroupSnoc(s: seq<Action>, a: Action)
    ensures GroupKeys(s + [a]) == SetAdd(GroupKeys(s), Key(a))
  {
    assert (s + [a])[..|s|] == s;
  }

  /** Appending an action extends only the group of its own key. */
  lemma GroupSnocAt(s: seq<Action>, a: Action, k: string)
    ensures Group(s + [a], k) == Group(s, k) + if Key(a) == k then [a] else []
  {
    assert (s + [a])[..|s|] == s;
  }

  /** A key never seen has an empty group. */
  lemma GroupUnseen(s: seq<Action>, k: string)
    ensures k !in GroupKeys(s) ==> Group(s, k) == []
  {
  }

  /** One `onActions(id, actions)` call. */
  datatype Call = Call(id: string, actions: seq<Action>)

  const DoneLead: string := "modify-component 已完成，已根据需求修改以下组件: "
  const KeySeparator: string := "、"
  const DoneEnd: string := "。"

  /** `keys` and `groups` are the grouping object built from `s`: its keys
      in insertion order, and each key's group. */
  ghost predicate GroupsOf(keys: seq<string>, groups: map<string, seq<Action>>, s: seq<Action>) {
    keys == GroupKeys(s) &&
    (forall k :: k in groups <==> k in keys) &&
    forall k | k in groups :: groups[k] == Group(s, k)
  }

  /** The names every object inherits from `Object.prototype`. Read on the
      `{}` accumulator, each gives a truthy value that has no `push`. */
  const InheritedKeys: set<string> := {
    "constructor", "__proto__", "toString", "toLocaleString", "valueOf",
    "hasOwnProperty", "isPrototypeOf", "propertyIsEnumerable",
    "__defineGetter__", "__defineSetter__", "__lookupGetter__", "__lookupSetter__"}

  /** The action's key names an inherited member of the accumulator. */
  predicate Inherited(a: Action) {
    Key(a) in InheritedKeys
  }

  /** The `reduce` throws: some action's key is an inherited name. */
  predicate ReduceThrows(s: seq<Action>) {
    exists i | 0 <= i < |s| :: Inherited(s[i])
  }

  /** The `reduce` callback: creates the key's array when it is missing,
      then pushes the action onto it. For an inherited name `acc[id]` is
      already truthy, so no array is created and `push` throws. */
  method AddToGroup(keys: seq<string>, groups: map<string, seq<Action>>, item: Action, ghost s: seq<Action>)
    returns (threw: bool, keys': seq<string>, groups': map<string, seq<Action>>)
    requires GroupsOf(keys, groups, s)
    ensures threw <==> Inherited(item)
    ensures !threw ==> GroupsOf(keys', groups', s + [item])
  {
    var id := Key(item);
    keys' := keys;
    groups' := groups;
    if id in InheritedKeys {
      return true, keys', groups';
    }
    if id !in groups' {
      groups' := groups'[id := []];
      keys' := keys' + [id];
    }
    groups' := groups'[id := groups'[id] + [item]];
    threw := false;
    GroupSnoc(s, item);
    GroupUnseen(s, id);
    assert groups'[id] == Group(s, id) + [item];
    forall k | k in groups' ensures groups'[k] == Group(s + [item], k) {
      GroupSnocAt(s, item, k);
    }
  }

  /** The `reduce` that groups the actions by `comId` into one object; it
      stops at the first action whose key is an inherited name. */
  method GroupById(actions: seq<Action>) returns (threw: bool, keys: seq<string>, groups: map<string, seq<Action>>)
    ensures threw <==> ReduceThrows(actions)
    ensures !threw ==> GroupsOf(keys, groups, actions)
  {
    keys := [];
    groups := map[];
    for i := 0 to |actions|
      invariant !ReduceThrows(actions[..i])
      invariant GroupsOf(keys, groups, actions[..i])
    {
      assert actions[..i + 1] == actions[..i] + [actions[i]];
      threw, keys, groups := AddToGroup(keys, groups, actions[i], actions[..i]);
      if threw {
        return;
      }
      assert forall k | 0 <= k < i :: actions[..i + 1][k] == actions[..i][k];
    }
    assert actions[..|actions|] == actions;
    threw := false;
  }

  /** The callbacks fired for `keys`, in order, each with its group. */
  function CallsFor(keys: seq<string>, s: seq<Action>): (calls: seq<Call>)
    ensures |calls| == |keys|
    ensures forall i | 0 <= i < |keys| :: calls[i] == Call(keys[i], Group(s, keys[i]))
  {
    if keys == [] then [] else CallsFor(keys[..|keys| - 1], s) + [Call(keys[|keys| - 1], Group(s, keys[|keys| - 1]))]
  }

  /** `onActions` is called once per key, in key order, with that key's group. */
  method FireCallbacks(keys: seq<string>, groups: map<string, seq<Action>>, ghost s: seq<Action>) returns (calls: seq<Call>)
    requires GroupsOf(keys, groups, s)
    ensures calls == CallsFor(keys, s)
  {
    calls := [];
    for i := 0 to |keys|
      invariant calls == CallsFor(keys[..i], s)
    {
      var id := keys[i];
      assert keys[..i + 1][..i] == keys[..i];
      calls := calls + [Call(id, groups[id])];
    }
    assert keys[..|keys|] == keys;
  }

  /** The reply of `execute`: the keys joined by `、`. */
  function Reply(keys: seq<string>): string {
    DoneLead + Join(keys, KeySeparator) + DoneEnd
  }

  /** `execute({files})`: the callbacks fired, in key order, and the reply;
      when the `reduce` throws, no callback fires and `execute` throws. */
  method Execute(files: RxFiles, parse: string -> seq<Action>) returns (calls: seq<Call>, reply: Outcome<string>)
    ensures var acts := ParsedActions(files, parse);
      ReduceThrows(acts) ==> calls == [] && reply == Threw
    ensures var acts := ParsedActions(files, parse);
      !ReduceThrows(acts) ==>
        calls == CallsFor(GroupKeys(acts), acts) && reply == Returned(Reply(GroupKeys(acts)))
  {
    var _, actions := ReadActions(files, parse);
    var threw, keys, groups := GroupById(actions);
    if threw {
      return [], Threw;
    }
    calls := FireCallbacks(keys, groups, actions);
    reply := Returned(Reply(keys));
  }

  /** The `reduce` throws exactly when one of the grouping keys is an
      inherited name. */
  lemma ReduceThrowsIffInheritedKey(s: seq<Action>)
    ensures ReduceThrows(s) <==> exists k | k in GroupKeys(s) :: k in InheritedKeys
  {
    if exists k | k in GroupKeys(s) :: k in InheritedKeys {
      var k :| k in GroupKeys(s) && k in InheritedKeys;
      var i :| 0 <= i < |s| && Key(s[i]) == k;
      assert Inherited(s[i]);
    }
  }

  /** The groups split the actions: each action lies in the group of its
      own key, and in no other. */
  lemma GroupsPartition(s: seq<Action>)
    ensures forall i | 0 <= i < |s| :: Key(s[i]) in GroupKeys(s) && s[i] in Group(s, Key(s[i]))
    ensures forall k, a | a in Group(s, k) :: Key(a) == k
  {
  }

  /** A group is the actions with its key, in their original order. */
  lemma {:induction false} GroupKeepsOrder(s: seq<Action>, k: string)
    ensures Group(s, k) == Filter(s, (a: Action) => Key(a) == k)
  {
    if s != [] {
      var n := |s| - 1;
      GroupKeepsOrder(s[..n], k);
      assert s == s[..n] + [s[n]];
      GroupSnocAt(s[..n], s[n], k);
      FilterSnoc(s[..n], s[n], (a: Action) => Key(a) == k);
    }
  }

  /** Every key gets a non-empty group, so every callback carries actions. */
  lemma {:induction false} GroupsNonEmpty(s: seq<Action>, k: string)
    requires k in GroupKeys(s)
    ensures |Group(s, k)| > 0
  {
    var i :| 0 <= i < |s| && Key(s[i]) == k;
    assert s[i] in Group(s, k);
  }

  /** Without a `.json` file nothing throws and no callback fires. */
  lemma NoFileNoCalls(files: RxFiles, parse: string -> seq<Action>)
    requires LastMatch(files, "json").None?
    ensures !ReduceThrows(ParsedActions(files, parse))
    ensures GroupKeys(ParsedActions(files, parse)) == []
  {
  }
}
