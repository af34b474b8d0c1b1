/** Copying the access rules of one SELinux target type to another. */
module AppSync {
  import opened Bytes

  /** The key of a rule; `specified` holds the kind of rule as flags, the lowest of which stands for allow rules. */
  datatype Key = Key(source: nat, target: nat, cls: nat, specified: nat)

  type Permissions = bv32

  type Rules = map<Key, Permissions>

  predicate IsAllowed(k: Key) {
    k.specified % 2 == 1
  }

  function Retarget(k: Key, target: nat): Key {
    k.(target := target)
  }

  /** What either of two rules allows. */
  function Or(a: Permissions, b: Permissions): Permissions {
    a | b
  }

  function DataAt(rules: Rules, k: Key): Permissions {
    if k in rules then rules[k] else 0
  }

  /** The rules in the order of the walk over all slots and chains. */
  function Flat(slots: seq<seq<Key>>): seq<Key> {
    if slots == [] then [] else slots[0] + Flat(slots[1..])
  }

  /** The walk meets every rule once. */
  predicate Enumerates(keys: seq<Key>, rules: Rules) {
    && (forall i :: 0 <= i < |keys| ==> keys[i] in rules)
    && (forall k :: k in rules ==> k in keys)
    && (forall i, j :: 0 <= i < j < |keys| ==> keys[i] != keys[j])
  }

  /** Whether the type a name stands for exists; several names can stand for one type. */
  type Types = map<string, nat>

  // ---------------------------------------------------------------------------
  // Looking rules up
  // ---------------------------------------------------------------------------

  /** How the library compares keys: the flags only have to overlap. */
  predicate FoundAs(k: Key, stored: Key) {
    stored.source == k.source && stored.target == k.target && stored.cls == k.cls && And(stored.specified, k.specified) != 0
  }

  /** Each rule is of one kind. */
  ghost predicate SingleFlag(k: Key) {
    exists j :: k.specified == Pow2(j)
  }

  lemma {:induction false} FlagsOverlap(i: nat, j: nat)
    ensures And(Pow2(i), Pow2(j)) != 0 <==> i == j
  {
    if i > 0 && j > 0 {
      FlagsOverlap(i - 1, j - 1);
      assert Pow2(i) / 2 == Pow2(i - 1) && Pow2(j) / 2 == Pow2(j - 1);
    } else if i > 0 {
      assert Pow2(i) == 2 * Pow2(i - 1);
      NoCommonBit(Pow2(i));
    } else if j > 0 {
      assert Pow2(j) == 2 * Pow2(j - 1);
      NoCommonBit(Pow2(j));
    }
  }

  lemma NoCommonBit(x: nat)
    requires x % 2 == 0
    ensures And(x, 1) == 0 && And(1, x) == 0
  {
    assert And(x / 2, 0) == 0 && And(0, x / 2) == 0;
  }

  /** With one flag in each rule, the library finds a rule exactly by its whole key, also for a retargeted one. */
  lemma FoundByKey(rules: Rules, k: Key, target: nat, stored: Key)
    requires SingleFlag(k) && stored in rules && SingleFlag(stored)
    ensures FoundAs(Retarget(k, target), stored) <==> stored == Retarget(k, target)
  {
    hide And, Pow2;
    var i :| k.specified == Pow2(i);
    var j :| stored.specified == Pow2(j);
    FlagsOverlap(j, i);
    FlagsOverlap(i, i);
  }

  // ---------------------------------------------------------------------------
  // What copying is for
  // ---------------------------------------------------------------------------

  /** A rule for `target` that an allow rule for `from` stands behind. */
  predicate IsCopy(rules: Rules, from: nat, target: nat, k: Key) {
    k.target == target && IsAllowed(k) && Retarget(k, from) in rules
  }

  /** The target type gets what both types had; every other rule stays. */
  ghost predicate IsUnion(rules: Rules, rules': Rules, from: nat, target: nat) {
    && (forall k :: k in rules' <==> k in rules || IsCopy(rules, from, target, k))
    && (forall k :: k in rules' ==>
          rules'[k] == if IsCopy(rules, from, target, k) then Or(DataAt(rules, k), rules[Retarget(k, from)]) else rules[k])
  }

  /** The union determines the result. */
  lemma UnionIsUnique(rules: Rules, a: Rules, b: Rules, from: nat, target: nat)
    requires IsUnion(rules, a, from, target) && IsUnion(rules, b, from, target)
    ensures a == b
  {
    assert forall k :: k in a <==> k in b;
    assert forall k :: k in a ==> a[k] == b[k];
  }

  lemma OrLaws(a: Permissions, b: Permissions)
    ensures Or(Or(a, b), b) == Or(a, b) && Or(b, b) == b && Or(0, b) == b
  {
  }

  /** A second copy changes nothing. */
  lemma CopyTwice(rules: Rules, once: Rules, twice: Rules, from: nat, target: nat)
    requires IsUnion(rules, once, from, target) && IsUnion(once, twice, from, target)
    ensures twice == once
  {
    hide IsAllowed, Or, IsUnion;
    forall k ensures (k in twice <==> k in once) && (k in once ==> twice[k] == once[k]) {
      CopyTwiceAt(rules, once, twice, from, target, k);
    }
  }

  lemma CopyTwiceAt(rules: Rules, once: Rules, twice: Rules, from: nat, target: nat, k: Key)
    requires IsUnion(rules, once, from, target) && IsUnion(once, twice, from, target)
    ensures (k in twice <==> k in once) && (k in once ==> twice[k] == once[k])
  {
    hide IsAllowed, Or;
    var f := Retarget(k, from);
    assert f in once <==> f in rules || IsCopy(rules, from, target, f);
    if IsCopy(once, from, target, k) {
      if from == target {
        assert f == k;
        OrLaws(0, once[k]);
      } else {
        assert once[f] == rules[f];
        OrLaws(DataAt(rules, k), rules[f]);
      }
    }
  }

  // ---------------------------------------------------------------------------
  // The two loops
  // ---------------------------------------------------------------------------

  /** The rules of a chain to copy, with their keys moved to the target type. */
  function Gathered(rules: Rules, keys: seq<Key>, from: nat, target: nat): seq<(Key, Permissions)> {
    if keys == [] then [] else Moved(rules, keys[0], from, target) + Gathered(rules, keys[1..], from, target)
  }

  function Moved(rules: Rules, k: Key, from: nat, target: nat): seq<(Key, Permissions)> {
    if IsAllowed(k) && k.target == from then [(Retarget(k, target), DataAt(rules, k))] else []
  }

  function AddOne(rules: Rules, rule: (Key, Permissions)): Rules {
    rules[rule.0 := if rule.0 in rules then Or(rules[rule.0], rule.1) else rule.1]
  }

  function Added(rules: Rules, toAdd: seq<(Key, Permissions)>): Rules
    decreases |toAdd|
  {
    if toAdd == [] then rules else Added(AddOne(rules, toAdd[0]), toAdd[1..])
  }

  lemma {:induction false} GatheredConcat(rules: Rules, a: seq<Key>, b: seq<Key>, from: nat, target: nat)
    ensures Gathered(rules, a + b, from, target) == Gathered(rules, a, from, target) + Gathered(rules, b, from, target)
  {
    if a == [] {
      assert a + b == b;
    } else {
      hide Moved;
      GatheredConcat(rules, a[1..], b, from, target);
      assert (a + b)[1..] == a[1..] + b && (a + b)[0] == a[0];
    }
  }

  /** The first slot of a walk. */
  lemma GatheredSlot(rules: Rules, slots: seq<seq<Key>>, from: nat, target: nat)
    ensures Gathered(rules, Flat(slots), from, target)
         == if slots == [] then []
            else Gathered(rules, slots[0], from, target) + Gathered(rules, Flat(slots[1..]), from, target)
  {
    hide Moved;
    if slots != [] {
      GatheredConcat(rules, slots[0], Flat(slots[1..]), from, target);
    }
  }

  /** Whether one of the keys is copied to k. */
  predicate Feeds(keys: seq<Key>, from: nat, target: nat, k: Key) {
    k.target == target && IsAllowed(k) && Retarget(k, from) in keys
  }

  /** What the copied rules of a walk do to one rule of a table. */
  lemma {:induction false} AddedAt(rules: Rules, acc: Rules, keys: seq<Key>, from: nat, target: nat, k: Key)
    requires forall i, j :: 0 <= i < j < |keys| ==> keys[i] != keys[j]
    ensures var r := Added(acc, Gathered(rules, keys, from, target));
            && (k in r <==> k in acc || Feeds(keys, from, target, k))
            && (k in r ==> r[k] == if Feeds(keys, from, target, k) then Or(DataAt(acc, k), DataAt(rules, Retarget(k, from))) else acc[k])
    decreases |keys|
  {
    if keys != [] {
      hide IsAllowed, Or, Feeds, DataAt, Gathered, AddOne;
      var first, rest := keys[0], keys[1..];
      assert keys == [first] + rest;
      assert forall i :: 0 <= i < |rest| ==> rest[i] == keys[i + 1];
      GatheredCons(rules, first, rest, from, target);
      if IsAllowed(first) && first.target == from {
        var moved, data := Retarget(first, target), DataAt(rules, first);
        var acc' := AddOne(acc, (moved, data));
        AddedCons(acc, (moved, data), Gathered(rules, rest, from, target));
        AddedAt(rules, acc', rest, from, target, k);
        FeedsFirst(first, rest, from, target, k);
        AddOneAt(acc, (moved, data), k);
      } else {
        AddedAt(rules, acc, rest, from, target, k);
        FeedsRest(first, rest, from, target, k);
      }
    }
  }

  /** What one copied rule does to a table. */
  lemma AddOneAt(acc: Rules, rule: (Key, Permissions), k: Key)
    ensures k in AddOne(acc, rule) <==> k in acc || k == rule.0
    ensures DataAt(AddOne(acc, rule), k) == if k == rule.0 then Or(DataAt(acc, k), rule.1) else DataAt(acc, k)
    ensures k in acc && k != rule.0 ==> AddOne(acc, rule)[k] == acc[k]
    ensures k == rule.0 ==> AddOne(acc, rule)[k] == Or(DataAt(acc, k), rule.1)
  {
    hide Or;
    OrLaws(0, rule.1);
  }

  lemma GatheredCons(rules: Rules, first: Key, rest: seq<Key>, from: nat, target: nat)
    ensures Gathered(rules, [first] + rest, from, target)
         == if IsAllowed(first) && first.target == from
            then [(Retarget(first, target), DataAt(rules, first))] + Gathered(rules, rest, from, target)
            else Gathered(rules, rest, from, target)
  {
    hide IsAllowed;
    assert ([first] + rest)[1..] == rest;
  }

  lemma AddedCons(acc: Rules, rule: (Key, Permissions), rest: seq<(Key, Permissions)>)
    ensures Added(acc, [rule] + rest) == Added(AddOne(acc, rule), rest)
  {
    hide AddOne;
    assert ([rule] + rest)[1..] == rest;
  }

  lemma FeedsRest(first: Key, rest: seq<Key>, from: nat, target: nat, k: Key)
    requires !(IsAllowed(first) && first.target == from)
    ensures Feeds([first] + rest, from, target, k) <==> Feeds(rest, from, target, k)
  {
    hide IsAllowed;
    AllowedIsTarget(k, from);
  }

  /** A rule is fed by the first key exactly when it is that key moved to the target type. */
  lemma FeedsFirst(first: Key, rest: seq<Key>, from: nat, target: nat, k: Key)
    requires IsAllowed(first) && first.target == from && first !in rest
    ensures k == Retarget(first, target) ==> !Feeds(rest, from, target, k) && Retarget(k, from) == first
    ensures Feeds([first] + rest, from, target, k) <==> k == Retarget(first, target) || Feeds(rest, from, target, k)
  {
    hide IsAllowed;
    AllowedIsTarget(first, target);
  }

  /** The kind of a rule is a flag; the lowest one makes it an allow rule. */
  lemma AllowFlag(k: Key)
    ensures IsAllowed(k) <==> And(k.specified, 1) == 1
  {
    LowestBit(k.specified);
  }

  lemma LowestBit(x: nat)
    ensures And(x, 1) == x % 2
  {
    assert And(x / 2, 0) == 0;
  }

  /**
   What a copy grants: for each allow rule on the source type, the rule on the target type allows what that one
   allows, and beyond that only what it allowed before; all other rules are as before.
   */
  lemma CopyGrants(rules: Rules, rules': Rules, from: nat, target: nat, k: Key)
    requires IsUnion(rules, rules', from, target)
    ensures k in rules && k.target == from && And(k.specified, 1) == 1 ==>
              var copy := Key(k.source, target, k.cls, k.specified);
              && copy in rules'
              && (if copy in rules then rules'[copy] == rules[copy] | rules[k] else rules'[copy] == rules[k])
    ensures k in rules' && !(k.target == target && And(k.specified, 1) == 1 && Key(k.source, from, k.cls, k.specified) in rules) ==>
              k in rules && rules'[k] == rules[k]
  {
    hide And, IsUnion;
    AllowFlag(k);
    UnionAt(rules, rules', from, target, k);
    var copy := Retarget(k, target);
    UnionAt(rules, rules', from, target, copy);
    if k.target == from {
      assert Retarget(copy, from) == k;
      if k in rules {
        OrLaws(0, rules[k]);
      }
    }
  }

  lemma UnionAt(rules: Rules, rules': Rules, from: nat, target: nat, k: Key)
    requires IsUnion(rules, rules', from, target)
    ensures k in rules' <==> k in rules || IsCopy(rules, from, target, k)
    ensures k in rules' ==>
              rules'[k] == if IsCopy(rules, from, target, k) then Or(DataAt(rules, k), rules[Retarget(k, from)]) else rules[k]
  {
    hide Or, DataAt;
  }

  lemma AllowedIsTarget(k: Key, target: nat)
    ensures IsAllowed(Retarget(k, target)) == IsAllowed(k)
  {
  }

  /** Whatever the order of the walk, the copy gives the union. */
  lemma AddedIsUnion(rules: Rules, keys: seq<Key>, from: nat, target: nat)
    requires Enumerates(keys, rules)
    ensures IsUnion(rules, Added(rules, Gathered(rules, keys, from, target)), from, target)
  {
    hide IsAllowed, Added, Gathered, Or;
    var r := Added(rules, Gathered(rules, keys, from, target));
    forall k
      ensures k in r <==> k in rules || IsCopy(rules, from, target, k)
      ensures k in r ==> r[k] == if IsCopy(rules, from, target, k) then Or(DataAt(rules, k), rules[Retarget(k, from)]) else rules[k]
    {
      AddedAt(rules, rules, keys, from, target, k);
      assert Feeds(keys, from, target, k) <==> IsCopy(rules, from, target, k);
    }
  }

  lemma RulesRegrouped(a: seq<(Key, Permissions)>, b: seq<(Key, Permissions)>, c: seq<(Key, Permissions)>)
    ensures a + b + c == a + (b + c)
  {
  }

  class PolicyDb {
    var rules: Rules
    const types: Types

    constructor (rules: Rules, types: Types)
      ensures this.rules == rules && this.types == types
    {
      this.rules := rules;
      this.types := types;
    }

    /** False when a type does not exist; equal names are left alone. */
    method CopyAvtabRules(slots: seq<seq<Key>>, fromName: string, toName: string) returns (ok: bool)
      requires Enumerates(Flat(slots), rules)
      modifies this
      ensures ok == (fromName == toName || (fromName in types && toName in types))
      ensures if ok && fromName != toName then IsUnion(old(rules), rules, types[fromName], types[toName]) else rules == old(rules)
    {
      hide Enumerates, IsUnion;
      if fromName == toName {
        return true;
      }
      if fromName !in types {
        return false;
      }
      if toName !in types {
        return false;
      }
      var from, target := types[fromName], types[toName];
      var toAdd := Gather(slots, from, target);
      AddedIsUnion(rules, Flat(slots), from, target);
      AddRules(toAdd);
      ok := true;
    }

    /** The rules to copy, in the order of the walk. */
    method Gather(slots: seq<seq<Key>>, from: nat, target: nat) returns (toAdd: seq<(Key, Permissions)>)
      ensures toAdd == Gathered(rules, Flat(slots), from, target)
    {
      hide Gathered, Flat;
      toAdd := [];
      var i := 0;
      ghost var all := Gathered(rules, Flat(slots), from, target);
      assert slots[0..] == slots && [] + all == all;
      while i < |slots|
        invariant 0 <= i <= |slots|
        invariant toAdd + Gathered(rules, Flat(slots[i..]), from, target) == all
      {
        ghost var before, rest := toAdd, Gathered(rules, Flat(slots[i + 1..]), from, target);
        assert slots[i..][0] == slots[i] && slots[i..][1..] == slots[i + 1..];
        GatheredSlot(rules, slots[i..], from, target);
        toAdd := GatherChain(slots[i], from, target, toAdd);
        RulesRegrouped(before, Gathered(rules, slots[i], from, target), rest);
        i := i + 1;
      }
      GatheredSlot(rules, slots[i..], from, target);
      assert toAdd + [] == toAdd;
    }

    method GatherChain(chain: seq<Key>, from: nat, target: nat, before: seq<(Key, Permissions)>) returns (toAdd: seq<(Key, Permissions)>)
      ensures toAdd == before + Gathered(rules, chain, from, target)
    {
      hide IsAllowed;
      toAdd := before;
      var j := 0;
      while j < |chain|
        invariant 0 <= j <= |chain|
        invariant toAdd + Gathered(rules, chain[j..], from, target) == before + Gathered(rules, chain, from, target)
      {
        assert chain[j..][1..] == chain[j + 1..];
        if IsAllowed(chain[j]) && chain[j].target == from {
          toAdd := toAdd + [(Retarget(chain[j], target), DataAt(rules, chain[j]))];
        }
        j := j + 1;
      }
    }

    method AddRules(toAdd: seq<(Key, Permissions)>)
      modifies this
      ensures rules == Added(old(rules), toAdd)
    {
      var n := 0;
      while n < |toAdd|
        invariant 0 <= n <= |toAdd|
        invariant Added(rules, toAdd[n..]) == Added(old(rules), toAdd)
      {
        var (k, data) := toAdd[n];
        assert toAdd[n..][1..] == toAdd[n + 1..];
        if k !in rules {
          rules := rules[k := data];
        } else {
          rules := rules[k := Or(rules[k], data)];
        }
        n := n + 1;
      }
    }
  }
}
