/** The strict YAML overlay of apps/home-assistant/merge-ha-yaml.py.

    Item ids are compared as trees; the TypeError Python raises for an id that is
    itself a map or a list is not modelled. */
module Overlay {
  import opened Options
  import opened Text

  datatype Yaml =
    | Null
    | Scalar(text: string)
    | Map(fields: map<string, Yaml>)
    | List(items: seq<Yaml>)

  predicate IsContainer(y: Yaml)
  {
    y.Map? || y.List?
  }

  predicate HasId(y: Yaml)
  {
    y.Map? && "id" in y.fields
  }

  predicate AllIds(items: seq<Yaml>)
  {
    forall i :: 0 <= i < |items| ==> HasId(items[i])
  }

  /** A non-empty list of maps that all carry an id. */
  predicate HasIdField(items: seq<Yaml>)
  {
    items != [] && AllIds(items)
  }

  function IdOf(y: Yaml): Yaml
    requires HasId(y)
  {
    y.fields["id"]
  }

  function Ids(items: seq<Yaml>): set<Yaml>
    requires AllIds(items)
  {
    set i | 0 <= i < |items| :: IdOf(items[i])
  }

  /** The items whose id is not among the given ones, in order. */
  function Kept(items: seq<Yaml>, ids: set<Yaml>): (r: seq<Yaml>)
    requires AllIds(items)
    ensures AllIds(r)
  {
    if items == [] then []
    else
      var n := |items| - 1;
      Kept(items[..n], ids) + (if IdOf(items[n]) in ids then [] else [items[n]])
  }

  /** One key of a merged map. */
  function MergeAt(t: Option<Yaml>, d: Option<Yaml>): Option<Yaml>
    decreases d
  {
    if d.None? then t
    else if t.Some? && IsContainer(t.value) && IsContainer(d.value) then Some(Merge(t.value, d.value))
    else d
  }

  function Get(m: map<string, Yaml>, k: string): Option<Yaml>
  {
    if k in m then Some(m[k]) else None
  }

  /** The overlay of defaults over a target. */
  function Merge(t: Yaml, d: Yaml): Yaml
    decreases d
  {
    if d.Null? then t
    else if t.Null? then d
    else if t.Map? && d.Map? then
      Map(map k | k in t.fields.Keys + d.fields.Keys ::
        if k !in d.fields then t.fields[k]
        else if k in t.fields && IsContainer(t.fields[k]) && IsContainer(d.fields[k])
        then Merge(t.fields[k], d.fields[k])
        else d.fields[k])
    else if t.List? && d.List? && HasIdField(t.items) && HasIdField(d.items)
    then List(Kept(t.items, Ids(d.items)) + d.items)
    else d
  }

  /** The script's recursion; the map branch updates a copy key by key. */
  method MergeYaml(target: Yaml, defaults: Yaml) returns (r: Yaml)
    ensures r == Merge(target, defaults)
    decreases defaults
  {
    if defaults.Null? {
      return target;
    }
    if target.Null? {
      return defaults;
    }
    if target.Map? && defaults.Map? {
      var result := target.fields;
      var todo := defaults.fields.Keys;
      while todo != {}
        invariant todo <= defaults.fields.Keys
        invariant result.Keys == target.fields.Keys + (defaults.fields.Keys - todo)
        invariant forall k :: k in result ==>
          result[k] == if k in todo then target.fields[k] else Merge(target, defaults).fields[k]
        decreases todo
      {
        var k :| k in todo;
        var v := defaults.fields[k];
        if k in result && IsContainer(result[k]) && IsContainer(v) {
          var merged := MergeYaml(result[k], v);
          result := result[k := merged];
        } else {
          result := result[k := v];
        }
        todo := todo - {k};
      }
      return Map(result);
    }
    if target.List? && defaults.List? && HasIdField(target.items) && HasIdField(defaults.items) {
      return List(Kept(target.items, Ids(defaults.items)) + defaults.items);
    }
    r := defaults;
  }

  // ---------------------------------------------------------------- map by key

  lemma MergeMapAt(t: Yaml, d: Yaml, k: string)
    requires t.Map? && d.Map?
    ensures Merge(t, d).Map? && Get(Merge(t, d).fields, k) == MergeAt(Get(t.fields, k), Get(d.fields, k))
  {
  }

  lemma SameByKey(a: Yaml, b: Yaml)
    requires a.Map? && b.Map? && forall k :: Get(a.fields, k) == Get(b.fields, k)
    ensures a == b
  {
    assert forall k :: k in a.fields <==> Get(a.fields, k).Some?;
    assert forall k :: k in b.fields <==> Get(b.fields, k).Some?;
    assert forall k :: k in a.fields ==> Some(a.fields[k]) == Get(a.fields, k) == Get(b.fields, k);
    assert a.fields == b.fields;
  }

  // -------------------------------------------------------------- id lists

  lemma {:induction false} KeptMembers(items: seq<Yaml>, ids: set<Yaml>)
    requires AllIds(items)
    ensures forall x :: x in Kept(items, ids) <==> x in items && HasId(x) && IdOf(x) !in ids
  {
    if items != [] {
      var n := |items| - 1;
      KeptMembers(items[..n], ids);
      assert items == items[..n] + [items[n]];
    }
  }

  lemma {:induction false} KeptNothing(items: seq<Yaml>, ids: set<Yaml>)
    requires forall i :: 0 <= i < |items| ==> HasId(items[i]) && IdOf(items[i]) in ids
    ensures Kept(items, ids) == []
  {
    if items != [] {
      KeptNothing(items[..|items| - 1], ids);
    }
  }

  function KeepOne(y: Yaml, ids: set<Yaml>): seq<Yaml>
    requires HasId(y)
  {
    if IdOf(y) in ids then [] else [y]
  }

  lemma KeptSnoc(items: seq<Yaml>, y: Yaml, ids: set<Yaml>)
    requires AllIds(items) && HasId(y)
    ensures AllIds(items + [y]) && Kept(items + [y], ids) == Kept(items, ids) + KeepOne(y, ids)
  {
    assert (items + [y])[..|items|] == items;
  }

  lemma KeptConcatStep(a: seq<Yaml>, front: seq<Yaml>, y: Yaml, ids: set<Yaml>)
    requires AllIds(a) && AllIds(front) && AllIds(a + front) && HasId(y)
    requires Kept(a + front, ids) == Kept(a, ids) + Kept(front, ids)
    ensures AllIds(a + (front + [y])) && AllIds(front + [y])
    ensures Kept(a + (front + [y]), ids) == Kept(a, ids) + Kept(front + [y], ids)
  {
    KeptSnoc(a + front, y, ids);
    KeptSnoc(front, y, ids);
    Associates(a, front, [y]);
    Associates(Kept(a, ids), Kept(front, ids), KeepOne(y, ids));
  }

  lemma {:induction false} KeptConcat(a: seq<Yaml>, b: seq<Yaml>, ids: set<Yaml>)
    requires AllIds(a) && AllIds(b)
    ensures AllIds(a + b)
    ensures Kept(a + b, ids) == Kept(a, ids) + Kept(b, ids)
  {
    if b == [] {
      assert a + b == a;
    } else {
      var n := |b| - 1;
      KeptConcat(a, b[..n], ids);
      KeptConcatStep(a, b[..n], b[n], ids);
      assert b[..n] + [b[n]] == b;
    }
  }

  lemma {:induction false} KeptTwice(items: seq<Yaml>, x: set<Yaml>, y: set<Yaml>)
    requires AllIds(items)
    ensures Kept(Kept(items, x), y) == Kept(items, x + y)
  {
    if items != [] {
      var n := |items| - 1;
      var front := Kept(items[..n], x);
      KeptTwice(items[..n], x, y);
      if IdOf(items[n]) in x {
        assert front + [] == front;
      } else {
        KeptSnoc(front, items[n], y);
      }
    }
  }

  lemma IdsConcat(a: seq<Yaml>, b: seq<Yaml>)
    requires AllIds(a) && AllIds(b)
    ensures AllIds(a + b)
    ensures Ids(a + b) == Ids(a) + Ids(b)
  {
    forall id | id in Ids(a) + Ids(b) ensures id in Ids(a + b) {
      if id in Ids(a) {
        var i :| 0 <= i < |a| && IdOf(a[i]) == id;
        assert (a + b)[i] == a[i];
      } else {
        var i :| 0 <= i < |b| && IdOf(b[i]) == id;
        assert (a + b)[|a| + i] == b[i];
      }
    }
  }

  lemma IdsOfKept(items: seq<Yaml>, ids: set<Yaml>)
    requires AllIds(items)
    ensures Ids(Kept(items, ids)) == Ids(items) - ids
  {
    var kept := Kept(items, ids);
    KeptMembers(items, ids);
    forall id | id in Ids(items) - ids ensures id in Ids(kept) {
      var i :| 0 <= i < |items| && IdOf(items[i]) == id;
      assert items[i] in kept;
    }
    forall id | id in Ids(kept) ensures id in Ids(items) - ids {
      var j :| 0 <= j < |kept| && IdOf(kept[j]) == id;
      assert kept[j] in items;
    }
  }

  predicate IsIdList(y: Yaml)
  {
    y.List? && HasIdField(y.items)
  }

  lemma MergeIdLists(t: Yaml, d: Yaml)
    requires IsIdList(t) && IsIdList(d)
    ensures IsIdList(Merge(t, d)) && Merge(t, d).items == Kept(t.items, Ids(d.items)) + d.items
    ensures Ids(Merge(t, d).items) == Ids(t.items) + Ids(d.items)
  {
    IdsOfKept(t.items, Ids(d.items));
    IdsConcat(Kept(t.items, Ids(d.items)), d.items);
  }

  // ------------------------------------------------------------- idempotence

  /** Overlaying a tree on itself changes nothing. */
  lemma {:induction false} MergeSelf(x: Yaml)
    ensures Merge(x, x) == x
    decreases x
  {
    if x.Map? {
      forall k ensures Get(Merge(x, x).fields, k) == Get(x.fields, k) {
        MergeMapAt(x, x, k);
        if k in x.fields {
          MergeSelf(x.fields[k]);
        }
      }
      SameByKey(Merge(x, x), x);
    } else if IsIdList(x) {
      KeptNothing(x.items, Ids(x.items));
    }
  }

  lemma IdListsAbsorb(t: Yaml, d: Yaml)
    requires IsIdList(t) && IsIdList(d)
    ensures Merge(Merge(t, d), d) == Merge(t, d)
  {
    var kept := Kept(t.items, Ids(d.items));
    MergeIdLists(t, d);
    MergeIdLists(Merge(t, d), d);
    KeptConcat(kept, d.items, Ids(d.items));
    KeptTwice(t.items, Ids(d.items), Ids(d.items));
    assert Ids(d.items) + Ids(d.items) == Ids(d.items);
    KeptNothing(d.items, Ids(d.items));
    assert kept + [] == kept;
  }

  /** Applying the same defaults again changes nothing, key by key. */
  lemma MergeAtAbsorbs(x: Option<Yaml>, y: Option<Yaml>)
    requires y.Some? ==> Merge(y.value, y.value) == y.value
    requires x.Some? && y.Some? ==> Merge(Merge(x.value, y.value), y.value) == Merge(x.value, y.value)
    ensures MergeAt(MergeAt(x, y), y) == MergeAt(x, y)
  {
  }

  /** Applying the same defaults again changes nothing. */
  lemma {:induction false} MergeAbsorbs(t: Yaml, d: Yaml)
    ensures Merge(Merge(t, d), d) == Merge(t, d)
    decreases d
  {
    if t.Map? && d.Map? {
      var m := Merge(t, d);
      forall k ensures Get(Merge(m, d).fields, k) == Get(m.fields, k) {
        MergeMapAt(t, d, k);
        MergeMapAt(m, d, k);
        if k in d.fields {
          MergeSelf(d.fields[k]);
          if k in t.fields {
            MergeAbsorbs(t.fields[k], d.fields[k]);
          }
        }
        MergeAtAbsorbs(Get(t.fields, k), Get(d.fields, k));
      }
      SameByKey(Merge(m, d), m);
    } else if IsIdList(t) && IsIdList(d) {
      IdListsAbsorb(t, d);
    } else {
      MergeSelf(d);
    }
  }

  // ------------------------------------------------------------ what is kept

  /** The value at a path of map keys. */
  function At(y: Yaml, path: seq<string>): Option<Yaml>
    decreases |path|
  {
    if path == [] then Some(y)
    else if y.Map? && path[0] in y.fields then At(y.fields[path[0]], path[1..])
    else None
  }

  /** The defaults follow the path through maps and then leave it open. */
  predicate LeavesOpen(d: Yaml, path: seq<string>)
    decreases |path|
  {
    path != [] && d.Map? && (path[0] !in d.fields || LeavesOpen(d.fields[path[0]], path[1..]))
  }

  /** Whatever the target holds at a path the defaults leave open is kept. */
  lemma {:induction false} TargetKept(t: Yaml, d: Yaml, path: seq<string>)
    requires LeavesOpen(d, path) && At(t, path).Some?
    ensures At(Merge(t, d), path) == At(t, path)
    decreases |path|
  {
    var k := path[0];
    MergeMapAt(t, d, k);
    assert k in Merge(t, d).fields;
    if k in d.fields {
      if |path| > 1 {
        TargetKept(t.fields[k], d.fields[k], path[1..]);
      }
    }
  }

  /** Whatever leaf the defaults hold at a path is what the result holds there. */
  lemma {:induction false} DefaultsWin(t: Yaml, d: Yaml, path: seq<string>)
    requires path != [] && At(d, path).Some? && !IsContainer(At(d, path).value)
    ensures At(Merge(t, d), path) == At(d, path)
    decreases |path|
  {
    if t.Map? {
      var k := path[0];
      MergeMapAt(t, d, k);
      assert k in Merge(t, d).fields;
      if k in t.fields && IsContainer(t.fields[k]) && IsContainer(d.fields[k]) {
        DefaultsWin(t.fields[k], d.fields[k], path[1..]);
      }
    }
  }

  predicate DistinctIds(items: seq<Yaml>)
    requires AllIds(items)
  {
    forall i, j :: 0 <= i < j < |items| ==> IdOf(items[i]) != IdOf(items[j])
  }

  lemma {:induction false} KeptStaysDistinct(items: seq<Yaml>, ids: set<Yaml>)
    requires AllIds(items) && DistinctIds(items)
    ensures DistinctIds(Kept(items, ids))
  {
    if items != [] {
      var n := |items| - 1;
      KeptStaysDistinct(items[..n], ids);
      KeptMembers(items[..n], ids);
      var front := Kept(items[..n], ids);
      forall i | 0 <= i < |front| ensures IdOf(front[i]) != IdOf(items[n]) {
        assert front[i] in items[..n];
      }
    }
  }

  /** On id lists: every target item whose id the defaults lack survives, every
      default item is there, no other id appears, and distinct ids stay distinct. */
  lemma IdListsAreUnited(t: Yaml, d: Yaml)
    requires IsIdList(t) && IsIdList(d)
    ensures
      var r := Merge(t, d);
      && IsIdList(r) && Ids(r.items) == Ids(t.items) + Ids(d.items)
      && (forall x :: x in r.items <==> x in d.items || (x in t.items && HasId(x) && IdOf(x) !in Ids(d.items)))
      && (DistinctIds(t.items) && DistinctIds(d.items) ==> DistinctIds(r.items))
  {
    MergeIdLists(t, d);
    KeptMembers(t.items, Ids(d.items));
    var kept := Kept(t.items, Ids(d.items));
    if DistinctIds(t.items) && DistinctIds(d.items) {
      KeptStaysDistinct(t.items, Ids(d.items));
      forall i, j | 0 <= i < |kept| && 0 <= j < |d.items| ensures IdOf(kept[i]) != IdOf(d.items[j]) {
        assert kept[i] in kept;
        assert IdOf(d.items[j]) in Ids(d.items);
      }
    }
  }

  /** at lists, in order, the positions of the true flags. */
  ghost predicate Marks(flags: seq<bool>, at: seq<nat>)
  {
    && (forall i, j :: 0 <= i < j < |at| ==> at[i] < at[j])
    && (forall i :: 0 <= i < |at| ==> at[i] < |flags| && flags[at[i]])
    && (forall n :: 0 <= n < |flags| && flags[n] ==> n in at)
  }

  lemma MarksSnoc(flags: seq<bool>, at: seq<nat>, flag: bool)
    requires Marks(flags, at)
    ensures Marks(flags + [flag], if flag then at + [|flags|] else at)
  {
    var now := if flag then at + [|flags|] else at;
    forall n | 0 <= n < |flags + [flag]| && (flags + [flag])[n] ensures n in now {
      if n == |flags| {
        assert now[|at|] == n;
      }
    }
  }

  /** Whether each item's id is not among the given. */
  function Others(items: seq<Yaml>, ids: set<Yaml>): (flags: seq<bool>)
    requires AllIds(items)
    ensures |flags| == |items| && forall i :: 0 <= i < |items| ==> flags[i] == (IdOf(items[i]) !in ids)
  {
    seq(|items|, i requires 0 <= i < |items| => IdOf(items[i]) !in ids)
  }

  function Select(items: seq<Yaml>, at: seq<nat>): (r: seq<Yaml>)
    requires forall i :: 0 <= i < |at| ==> at[i] < |items|
    ensures |r| == |at| && forall i :: 0 <= i < |at| ==> r[i] == items[at[i]]
  {
    seq(|at|, i requires 0 <= i < |at| => items[at[i]])
  }

  lemma SelectFront(items: seq<Yaml>, at: seq<nat>, n: nat)
    requires n <= |items| && forall i :: 0 <= i < |at| ==> at[i] < n
    ensures Select(items[..n], at) == Select(items, at)
  {
  }

  lemma SelectSnoc(items: seq<Yaml>, at: seq<nat>, n: nat)
    requires n < |items| && forall i :: 0 <= i < |at| ==> at[i] < |items|
    ensures Select(items, at + [n]) == Select(items, at) + [items[n]]
  {
  }

  lemma OthersSnoc(items: seq<Yaml>, ids: set<Yaml>, n: nat)
    requires AllIds(items) && |items| == n + 1
    ensures Others(items, ids) == Others(items[..n], ids) + [IdOf(items[n]) !in ids]
  {
  }

  lemma {:induction false} KeptInOrder(items: seq<Yaml>, ids: set<Yaml>) returns (at: seq<nat>)
    requires AllIds(items)
    ensures Marks(Others(items, ids), at) && Kept(items, ids) == Select(items, at)
  {
    at := [];
    if items != [] {
      var n := |items| - 1;
      var before := KeptInOrder(items[..n], ids);
      OthersSnoc(items, ids, n);
      MarksSnoc(Others(items[..n], ids), before, IdOf(items[n]) !in ids);
      SelectFront(items, before, n);
      SelectSnoc(items, before, n);
      at := if IdOf(items[n]) in ids then before else before + [n];
    }
  }

  /** The target's surviving items come first and in their order, then the defaults'
      items, all of them and in theirs. */
  lemma IdListsKeepOrder(t: Yaml, d: Yaml) returns (at: seq<nat>)
    requires IsIdList(t) && IsIdList(d)
    ensures Marks(Others(t.items, Ids(d.items)), at)
    ensures Merge(t, d) == List(Select(t.items, at) + d.items)
  {
    MergeIdLists(t, d);
    at := KeptInOrder(t.items, Ids(d.items));
  }

  /** Whatever does not combine is replaced whole, a missing document by the other. */
  lemma OthersAreReplaced(t: Yaml, d: Yaml)
    ensures !t.Null? && !d.Null? && !(t.Map? && d.Map?) && !(IsIdList(t) && IsIdList(d)) ==> Merge(t, d) == d
    ensures Merge(t, Null) == t && Merge(Null, d) == d
  {
  }

  /** Lists combine only when both hold items and every item is a map with an id: an empty
      default list, say, empties the target's. */
  lemma ListsCombineOnlyById(t: seq<Yaml>, d: seq<Yaml>)
    ensures
      t == [] || d == [] || (exists x :: x in t + d && !(x.Map? && "id" in x.fields)) ==>
        Merge(List(t), List(d)) == List(d)
  {
    if x :| x in t + d && !(x.Map? && "id" in x.fields) {
      if x in t {
        var i :| 0 <= i < |t| && t[i] == x;
      } else {
        var i :| 0 <= i < |d| && d[i] == x;
      }
    }
  }

  /** Where both trees reach a path through maps, two containers are merged there and
      anything else takes the default. */
  lemma {:induction false} MergedAt(t: Yaml, d: Yaml, path: seq<string>)
    requires path != [] && At(t, path).Some? && At(d, path).Some?
    ensures
      var x, y := At(t, path).value, At(d, path).value;
      At(Merge(t, d), path) == Some(if IsContainer(x) && IsContainer(y) then Merge(x, y) else y)
    decreases |path|
  {
    var k := path[0];
    MergeMapAt(t, d, k);
    assert k in Merge(t, d).fields;
    if |path| == 1 {
      assert path[1..] == [];
    } else {
      assert At(d.fields[k], path[1..]).Some? && d.fields[k].Map? && t.fields[k].Map?;
      MergedAt(t.fields[k], d.fields[k], path[1..]);
    }
  }

  // ------------------------------------------------------------- associativity

  /** The two trees are of one kind at every path they share: both leaves, both
      maps, both id lists, or both other lists. */
  predicate Agree(a: Yaml, b: Yaml)
    decreases a
  {
    || (!IsContainer(a) && !IsContainer(b))
    || (a.Map? && b.Map? && forall k :: k in a.fields && k in b.fields ==> Agree(a.fields[k], b.fields[k]))
    || (IsIdList(a) && IsIdList(b))
    || (a.List? && b.List? && !HasIdField(a.items) && !HasIdField(b.items))
  }

  lemma IdListsAssociate(a: Yaml, b: Yaml, c: Yaml)
    requires IsIdList(a) && IsIdList(b) && IsIdList(c)
    ensures Merge(Merge(a, b), c) == Merge(a, Merge(b, c))
  {
    var ib, ic := Ids(b.items), Ids(c.items);
    MergeIdLists(a, b);
    MergeIdLists(b, c);
    MergeIdLists(Merge(a, b), c);
    MergeIdLists(a, Merge(b, c));
    var ka, kb := Kept(a.items, ib), Kept(b.items, ic);
    KeptConcat(ka, b.items, ic);
    KeptTwice(a.items, ib, ic);
    Associates(Kept(ka, ic), kb, c.items);
    assert Merge(Merge(a, b), c).items == Kept(a.items, ib + ic) + (kb + c.items);
    assert Merge(a, Merge(b, c)).items == Kept(a.items, ib + ic) + (kb + c.items);
  }

  /** The two trees combine: anything else keeps the second. */
  predicate Combine(a: Yaml, b: Yaml)
  {
    (a.Map? && b.Map?) || (IsIdList(a) && IsIdList(b))
  }

  /** Everything the first of two combining trees holds is overlaid by the second: its
      keys, all the way down, or its ids. */
  predicate AddsNothing(a: Yaml, c: Yaml)
    requires Combine(a, c)
    decreases a
  {
    if a.Map? then
      && a.fields.Keys <= c.fields.Keys
      && forall k :: k in a.fields && k in c.fields && Combine(a.fields[k], c.fields[k]) ==>
           AddsNothing(a.fields[k], c.fields[k])
    else Ids(a.items) <= Ids(c.items)
  }

  /** When two overlays in a row are one: wherever the middle tree would be thrown away
      by the last, the first must have nothing to add to the last. */
  predicate Associate(a: Yaml, b: Yaml, c: Yaml)
    decreases a, 0
  {
    if a.Null? || b.Null? || c.Null? then true
    else if !Combine(b, c) then Combine(a, c) ==> AddsNothing(a, c)
    else a.Map? && b.Map? ==>
      forall k :: k in a.fields && k in b.fields && k in c.fields ==>
        AssociateAt(a.fields[k], b.fields[k], c.fields[k])
  }

  /** The same under one key that all three hold; here a null is a leaf like others. */
  predicate AssociateAt(a: Yaml, b: Yaml, c: Yaml)
    decreases a, 1
  {
    if IsContainer(b) then IsContainer(a) && IsContainer(c) ==> Associate(a, b, c)
    else Combine(a, c) ==> AddsNothing(a, c)
  }

  lemma {:induction false} AllKept(items: seq<Yaml>, ids: set<Yaml>)
    requires AllIds(items)
    ensures Kept(items, ids) == [] <==> Ids(items) <= ids
  {
    if items != [] {
      var n := |items| - 1;
      AllKept(items[..n], ids);
      IdsConcat(items[..n], [items[n]]);
      assert items == items[..n] + [items[n]];
      assert Ids([items[n]]) == {IdOf(items[n])};
    }
  }

  lemma IdListAddsNothing(a: Yaml, c: Yaml)
    requires IsIdList(a) && IsIdList(c)
    ensures Merge(a, c) == c <==> Ids(a.items) <= Ids(c.items)
  {
    var kept := Kept(a.items, Ids(c.items));
    MergeIdLists(a, c);
    AllKept(a.items, Ids(c.items));
    if kept == [] {
      assert kept + c.items == c.items;
    } else {
      assert |kept + c.items| > |c.items|;
    }
  }

  lemma {:induction false} AddsNothingExactly(a: Yaml, c: Yaml)
    requires Combine(a, c)
    ensures Merge(a, c) == c <==> AddsNothing(a, c)
    decreases a
  {
    if a.Map? {
      forall k | k in a.fields && k in c.fields
        ensures Get(Merge(a, c).fields, k) == Some(c.fields[k])
           <==> (Combine(a.fields[k], c.fields[k]) ==> AddsNothing(a.fields[k], c.fields[k]))
      {
        MergeMapAt(a, c, k);
        if Combine(a.fields[k], c.fields[k]) {
          AddsNothingExactly(a.fields[k], c.fields[k]);
        }
      }
      MapAddsNothing(a, c);
    } else {
      IdListAddsNothing(a, c);
    }
  }

  lemma MapAddsNothing(a: Yaml, c: Yaml)
    requires a.Map? && c.Map?
    ensures Merge(a, c) == c <==>
      && a.fields.Keys <= c.fields.Keys
      && forall k :: k in a.fields && k in c.fields ==> Get(Merge(a, c).fields, k) == Some(c.fields[k])
  {
    var m := Merge(a, c);
    if a.fields.Keys <= c.fields.Keys
      && forall k :: k in a.fields && k in c.fields ==> Get(m.fields, k) == Some(c.fields[k]) {
      forall k ensures Get(m.fields, k) == Get(c.fields, k) {
        MergeMapAt(a, c, k);
      }
      SameByKey(m, c);
    }
  }

  /** The key-by-key law, given the law for what lies under the key. */
  lemma AtAssociates(a: Option<Yaml>, b: Option<Yaml>, c: Option<Yaml>)
    requires a.Some? && b.Some? && c.Some? && IsContainer(a.value) && IsContainer(b.value) && IsContainer(c.value) ==>
      (Merge(Merge(a.value, b.value), c.value) == Merge(a.value, Merge(b.value, c.value))
       <==> Associate(a.value, b.value, c.value))
    ensures MergeAt(MergeAt(a, b), c) == MergeAt(a, MergeAt(b, c)) <==>
      (a.Some? && b.Some? && c.Some? ==> AssociateAt(a.value, b.value, c.value))
  {
    if a.Some? && b.Some? && c.Some? && !IsContainer(b.value) && Combine(a.value, c.value) {
      AddsNothingExactly(a.value, c.value);
    }
  }

  lemma MapsAssociate(a: Yaml, b: Yaml, c: Yaml)
    requires a.Map? && b.Map? && c.Map?
    ensures Merge(Merge(a, b), c) == Merge(a, Merge(b, c)) <==>
      forall k :: MergeAt(MergeAt(Get(a.fields, k), Get(b.fields, k)), Get(c.fields, k))
               == MergeAt(Get(a.fields, k), MergeAt(Get(b.fields, k), Get(c.fields, k)))
  {
    var ab, bc := Merge(a, b), Merge(b, c);
    forall k
      ensures Get(Merge(ab, c).fields, k) == MergeAt(MergeAt(Get(a.fields, k), Get(b.fields, k)), Get(c.fields, k))
      ensures Get(Merge(a, bc).fields, k) == MergeAt(Get(a.fields, k), MergeAt(Get(b.fields, k), Get(c.fields, k)))
    {
      MergeMapAt(a, b, k);
      MergeMapAt(b, c, k);
      MergeMapAt(ab, c, k);
      MergeMapAt(a, bc, k);
    }
    if forall k :: Get(Merge(ab, c).fields, k) == Get(Merge(a, bc).fields, k) {
      SameByKey(Merge(ab, c), Merge(a, bc));
    }
  }

  /** Trees that are not all combined: the last wins on the left, and on the right
      unless it combines with the first. */
  lemma ThrownAway(a: Yaml, b: Yaml, c: Yaml)
    requires !a.Null? && !b.Null? && !c.Null? && !(Combine(a, b) && Combine(b, c))
    ensures Merge(Merge(a, b), c) == Merge(a, Merge(b, c)) <==>
      (!Combine(b, c) && Combine(a, c) ==> Merge(a, c) == c)
  {
    if IsIdList(a) && IsIdList(b) {
      MergeIdLists(a, b);
    }
    if IsIdList(b) && IsIdList(c) {
      MergeIdLists(b, c);
    }
  }

  /** Two overlays in a row are one overlay by the merged defaults, exactly. */
  lemma {:induction false} AssociatesExactly(a: Yaml, b: Yaml, c: Yaml)
    ensures Merge(Merge(a, b), c) == Merge(a, Merge(b, c)) <==> Associate(a, b, c)
    decreases a
  {
    if a.Null? || b.Null? || c.Null? {
    } else if !(Combine(a, b) && Combine(b, c)) {
      ThrownAway(a, b, c);
      if Combine(a, c) {
        AddsNothingExactly(a, c);
      }
    } else if a.Map? {
      MapsAssociate(a, b, c);
      forall k
        ensures MergeAt(MergeAt(Get(a.fields, k), Get(b.fields, k)), Get(c.fields, k))
             == MergeAt(Get(a.fields, k), MergeAt(Get(b.fields, k), Get(c.fields, k)))
           <==> (k in a.fields && k in b.fields && k in c.fields ==>
                   AssociateAt(a.fields[k], b.fields[k], c.fields[k]))
      {
        if k in a.fields && k in b.fields && k in c.fields {
          AssociatesExactly(a.fields[k], b.fields[k], c.fields[k]);
        }
        AtAssociates(Get(a.fields, k), Get(b.fields, k), Get(c.fields, k));
      }
    } else {
      IdListsAssociate(a, b, c);
    }
  }

  /** In particular on trees that agree in kind wherever they share a path. */
  lemma MergeAssociates(a: Yaml, b: Yaml, c: Yaml)
    requires Agree(a, b) && Agree(b, c) && Agree(a, c)
    ensures Merge(Merge(a, b), c) == Merge(a, Merge(b, c))
  {
    AgreeingAssociate(a, b, c);
    AssociatesExactly(a, b, c);
  }

  lemma {:induction false} AgreeingAssociate(a: Yaml, b: Yaml, c: Yaml)
    requires Agree(a, b) && Agree(b, c) && Agree(a, c)
    ensures Associate(a, b, c)
    decreases a
  {
    if a.Map? && b.Map? && c.Map? {
      forall k | k in a.fields && k in b.fields && k in c.fields
        ensures AssociateAt(a.fields[k], b.fields[k], c.fields[k])
      {
        AgreeingAssociate(a.fields[k], b.fields[k], c.fields[k]);
      }
    }
  }

  /** Without agreement it can fail: a scalar in the middle hides a map from the
      later defaults on one side only. */
  lemma KindsMustAgree()
    ensures
      var a := Map(map["k" := Map(map["x" := Scalar("1")])]);
      var b := Map(map["k" := Scalar("s")]);
      var c := Map(map["k" := Map(map["y" := Scalar("2")])]);
      Merge(Merge(a, b), c) != Merge(a, Merge(b, c))
  {
    var a := Map(map["k" := Map(map["x" := Scalar("1")])]);
    var b := Map(map["k" := Scalar("s")]);
    var c := Map(map["k" := Map(map["y" := Scalar("2")])]);
    AssociatesExactly(a, b, c);
    assert "x" in a.fields["k"].fields && "x" !in c.fields["k"].fields;
    assert !AssociateAt(a.fields["k"], b.fields["k"], c.fields["k"]);
  }
}
