/** nova/scheduler/weights/__init__.py: weighing hosts and ordering them,
    highest weight first. */
module Weights {
  import Seqs
  import RackspaceFilter

  /** A `WeighedObject`: the object and its accumulated weight. */
  datatype Weighed<T> = Weighed(obj: T, weight: real)

  /** A weigher, given the whole weighed list, computes the new weight of
      the object at each position (it updates the list in place). */
  type Weigher<!T> = (seq<Weighed<T>>, nat) -> real

  /** Every weight in `s` is at least every weight after it. */
  predicate SortedDesc<T(==)>(s: seq<Weighed<T>>) {
    forall i, j :: 0 <= i < j < |s| ==> s[i].weight >= s[j].weight
  }

  /** Insert `x` in front of the first element that does not outweigh it:
      after every heavier element and before every element of equal or
      lower weight. */
  function Insert<T>(x: Weighed<T>, t: seq<Weighed<T>>): (r: seq<Weighed<T>>)
    ensures |r| == |t| + 1
    ensures r[0] == x || (|t| > 0 && r[0] == t[0])
  {
    if |t| == 0 || x.weight >= t[0].weight then [x] + t
    else [t[0]] + Insert(x, t[1..])
  }

  /** Inserting into an ordered list keeps it ordered. */
  lemma {:induction false} InsertSorted<T>(x: Weighed<T>, t: seq<Weighed<T>>)
    requires SortedDesc(t)
    ensures SortedDesc(Insert(x, t))
  {
    if |t| > 0 && x.weight < t[0].weight {
      var u := Insert(x, t[1..]);
      assert SortedDesc(t[1..]);
      InsertSorted(x, t[1..]);
      assert u[0].weight <= t[0].weight;
      assert forall j :: 0 <= j < |u| ==> u[j].weight <= u[0].weight;
    }
  }

  /** Inserting adds exactly `x`. */
  lemma {:induction false} InsertPermutes<T>(x: Weighed<T>, t: seq<Weighed<T>>)
    ensures multiset(Insert(x, t)) == multiset(t) + multiset{x}
  {
    if |t| > 0 && x.weight < t[0].weight {
      InsertBehind(x, t);
      InsertPermutes(x, t[1..]);
    }
  }

  /** `sorted(..., key=weight, reverse=True)`: Python's sort is stable, and
      stays stable when reversed. */
  function SortDesc<T>(s: seq<Weighed<T>>): (r: seq<Weighed<T>>)
    ensures |r| == |s|
    ensures SortedDesc(r)
  {
    if |s| == 0 then []
    else
      InsertSorted(s[0], SortDesc(s[1..]));
      Insert(s[0], SortDesc(s[1..]))
  }

  /** The sorted list is a permutation of the input. */
  lemma {:induction false} SortDescPermutes<T>(s: seq<Weighed<T>>)
    ensures multiset(SortDesc(s)) == multiset(s)
  {
    if |s| > 0 {
      SortDescStep(s);
      SortDescPermutes(s[1..]);
      InsertPermutes(s[0], SortDesc(s[1..]));
    }
  }

  /** One step of the sort. */
  lemma SortDescStep<T>(s: seq<Weighed<T>>)
    requires |s| > 0
    ensures SortDesc(s) == Insert(s[0], SortDesc(s[1..]))
    ensures s == [s[0]] + s[1..]
  {
  }

  /** The elements of weight `w`, in order. */
  function OfWeight<T(==,!new)>(s: seq<Weighed<T>>, w: real): seq<Weighed<T>> {
    Seqs.Filter(s, WeightIs(w))
  }

  function WeightIs<T>(w: real): Weighed<T> -> bool {
    (x: Weighed<T>) => x.weight == w
  }

  /** Inserting `x` puts it ahead of every element of its own weight. */
  lemma {:induction false} InsertStable<T(!new)>(x: Weighed<T>, t: seq<Weighed<T>>, w: real)
    ensures OfWeight(Insert(x, t), w) == (if x.weight == w then [x] else []) + OfWeight(t, w)
  {
    var p := WeightIs<T>(w);
    if |t| == 0 || x.weight >= t[0].weight {
      Seqs.FilterCons(x, t, p);
    } else {
      var t0, t' := t[0], t[1..];
      InsertStable(x, t', w);
      InsertBehind(x, t);
      Seqs.FilterCons(t0, Insert(x, t'), p);
      Seqs.FilterCons(t0, t', p);
      HeadsCommute(if p(x) then [x] else [], if p(t0) then [t0] else [], Seqs.Filter(t', p));
    }
  }

  /** `x` lighter than the head of `t` goes behind it. */
  lemma InsertBehind<T>(x: Weighed<T>, t: seq<Weighed<T>>)
    requires |t| > 0 && x.weight < t[0].weight
    ensures Insert(x, t) == [t[0]] + Insert(x, t[1..])
    ensures t == [t[0]] + t[1..]
  {
  }

  /** Two prefixes of which at most one is non-empty can be swapped. */
  lemma HeadsCommute<T>(a: seq<T>, b: seq<T>, f: seq<T>)
    requires a == [] || b == []
    ensures b + (a + f) == a + (b + f)
  {
    if a == [] {
      assert a + f == f && a + (b + f) == b + f;
    } else {
      assert b + (a + f) == a + f && b + f == f;
    }
  }

  /** The sort is stable: the elements of each weight keep their input
      order. */
  lemma {:induction false} SortDescStable<T(!new)>(s: seq<Weighed<T>>, w: real)
    ensures OfWeight(SortDesc(s), w) == OfWeight(s, w)
  {
    if |s| > 0 {
      SortDescStep(s);
      SortDescStable(s[1..], w);
      InsertStable(s[0], SortDesc(s[1..]), w);
      Seqs.FilterCons(s[0], s[1..], WeightIs(w));
    }
  }

  /** A list already in order comes back unchanged. */
  lemma {:induction false} SortDescSorted<T>(s: seq<Weighed<T>>)
    requires SortedDesc(s)
    ensures SortDesc(s) == s
  {
    if |s| > 0 {
      assert SortedDesc(s[1..]);
      SortDescSorted(s[1..]);
      assert s == [s[0]] + s[1..];
    }
  }

  /** A list whose weights are all equal comes back in its original order. */
  lemma SortDescAllEqual<T(!new)>(s: seq<Weighed<T>>, w: real)
    requires forall i :: 0 <= i < |s| ==> s[i].weight == w
    ensures SortDesc(s) == s
  {
    var r := SortDesc(s);
    SortDescStable(s, w);
    SortDescPermutes(s);
    var p := WeightIs<T>(w);
    Seqs.FilterAllAccepted(s, p);
    assert forall i :: 0 <= i < |r| ==> r[i].weight == w by {
      forall i | 0 <= i < |r| ensures r[i].weight == w {
        assert r[i] in multiset(s);
      }
    }
    Seqs.FilterAllAccepted(r, p);
  }

  /** Every object starts at weight 0.0. */
  function Initial<T(==)>(objs: seq<T>): (r: seq<Weighed<T>>)
    ensures |r| == |objs|
    ensures forall i :: 0 <= i < |r| ==> r[i] == Weighed(objs[i], 0.0)
  {
    seq(|objs|, i requires 0 <= i < |objs| => Weighed(objs[i], 0.0))
  }

  /** One weigher pass: each object keeps its place and gets a new weight. */
  function Apply<T(==)>(ws: seq<Weighed<T>>, weigher: Weigher<T>): (r: seq<Weighed<T>>)
    ensures |r| == |ws|
    ensures forall i :: 0 <= i < |r| ==> r[i].obj == ws[i].obj && r[i].weight == weigher(ws, i)
  {
    seq(|ws|, i requires 0 <= i < |ws| => Weighed(ws[i].obj, weigher(ws, i)))
  }

  /** The weighers, run in the given order on the same list. */
  function ApplyAll<T(==)>(ws: seq<Weighed<T>>, weighers: seq<Weigher<T>>): (r: seq<Weighed<T>>)
    ensures |r| == |ws|
    ensures forall i :: 0 <= i < |r| ==> r[i].obj == ws[i].obj
    ensures |weighers| == 0 ==> r == ws
    decreases |weighers|
  {
    if |weighers| == 0 then ws else ApplyAll(Apply(ws, weighers[0]), weighers[1..])
  }

  /** Running two lists of weighers is running the first list, then the
      second on its output. */
  lemma {:induction false} ApplyAllConcat<T(!new)>(ws: seq<Weighed<T>>, a: seq<Weigher<T>>, b: seq<Weigher<T>>)
    ensures ApplyAll(ws, a + b) == ApplyAll(ApplyAll(ws, a), b)
    decreases |a|
  {
    if |a| == 0 {
      assert a + b == b;
    } else {
      assert (a + b)[0] == a[0] && (a + b)[1..] == a[1..] + b;
      ApplyAllConcat(Apply(ws, a[0]), a[1..], b);
    }
  }

  /** The weighers run in the given order, each on the list the previous
      ones left: the last one sees everything before it applied. */
  lemma ApplyAllSnoc<T(!new)>(ws: seq<Weighed<T>>, a: seq<Weigher<T>>, f: Weigher<T>)
    ensures ApplyAll(ws, a + [f]) == Apply(ApplyAll(ws, a), f)
  {
    ApplyAllConcat(ws, a, [f]);
    assert [f][1..] == [];
  }

  /** `RAXHostWeightHandler.get_weighed_objects`. */
  function GetWeighedObjects<T(==)>(weighers: seq<Weigher<T>>, objs: seq<T>): (r: seq<Weighed<T>>)
    ensures |objs| == 0 ==> r == []
    ensures |r| == |objs|
    ensures SortedDesc(r)
    ensures multiset(r) == multiset(ApplyAll(Initial(objs), weighers))
  {
    if |objs| == 0 then []
    else
      SortDescPermutes(ApplyAll(Initial(objs), weighers));
      SortDesc(ApplyAll(Initial(objs), weighers))
  }

  /** The objects of a weighed list, in order. */
  function Objs<T>(s: seq<Weighed<T>>): (r: seq<T>)
    ensures |r| == |s|
    ensures forall i :: 0 <= i < |s| ==> r[i] == s[i].obj
  {
    if |s| == 0 then [] else [s[0].obj] + Objs(s[1..])
  }

  lemma {:induction false} ObjsConcat<T>(a: seq<Weighed<T>>, b: seq<Weighed<T>>)
    ensures Objs(a + b) == Objs(a) + Objs(b)
  {
    assert Objs(a + b) == Objs(a) + Objs(b);
  }

  /** Inserting adds exactly the inserted object. */
  lemma {:induction false} InsertObjs<T>(x: Weighed<T>, t: seq<Weighed<T>>)
    ensures multiset(Objs(Insert(x, t))) == multiset(Objs(t)) + multiset{x.obj}
  {
    if |t| == 0 || x.weight >= t[0].weight {
      ObjsConcat([x], t);
    } else {
      InsertBehind(x, t);
      InsertObjs(x, t[1..]);
      ObjsConcat([t[0]], Insert(x, t[1..]));
      ObjsConcat([t[0]], t[1..]);
    }
  }

  /** Sorting moves objects around but neither adds nor drops any. */
  lemma {:induction false} SortDescObjs<T>(s: seq<Weighed<T>>)
    ensures multiset(Objs(SortDesc(s))) == multiset(Objs(s))
  {
    if |s| > 0 {
      SortDescStep(s);
      SortDescObjs(s[1..]);
      InsertObjs(s[0], SortDesc(s[1..]));
      ObjsConcat([s[0]], s[1..]);
    }
  }

  /** Hosts of equal final weight come out in the order they went in. */
  lemma TiesKeepInputOrder<T(!new)>(weighers: seq<Weigher<T>>, objs: seq<T>, w: real)
    ensures OfWeight(GetWeighedObjects(weighers, objs), w) == OfWeight(ApplyAll(Initial(objs), weighers), w)
  {
    if |objs| > 0 {
      SortDescStable(ApplyAll(Initial(objs), weighers), w);
    }
  }

  /** The objects that come out are the objects that went in. */
  lemma SameObjects<T>(weighers: seq<Weigher<T>>, objs: seq<T>)
    ensures multiset(Objs(GetWeighedObjects(weighers, objs))) == multiset(objs)
  {
    var a := ApplyAll(Initial(objs), weighers);
    assert Objs(a) == objs;
    if |objs| > 0 {
      SortDescObjs(a);
    }
  }

  /** Without weighers every object keeps weight 0.0 and the input order. */
  lemma NoWeighersKeepsOrder<T(!new)>(objs: seq<T>)
    ensures GetWeighedObjects([], objs) == Initial(objs)
  {
    if |objs| > 0 {
      SortDescAllEqual(Initial(objs), 0.0);
    }
  }

  /** A dictionary value of `to_dict`. */
  datatype DictValue = Number(n: real) | Text(s: string)

  /** `WeighedHost.to_dict`. */
  function ToDict(w: Weighed<RackspaceFilter.HostState>): (d: map<string, DictValue>)
    ensures d.Keys == {"weight", "host"}
    ensures d["weight"] == Number(w.weight) && d["host"] == Text(w.obj.host)
  {
    map["weight" := Number(w.weight), "host" := Text(w.obj.host)]
  }

  /** The dictionaries of the weighed hosts list their weights highest
      first, and each names the host it was made from. */
  lemma ToDictOfWeighedHosts(weighers: seq<Weigher<RackspaceFilter.HostState>>, hosts: seq<RackspaceFilter.HostState>)
    ensures var r := GetWeighedObjects(weighers, hosts);
            && (forall i, j :: 0 <= i < j < |r| ==> ToDict(r[i])["weight"].n >= ToDict(r[j])["weight"].n)
            && (forall i :: 0 <= i < |r| ==> ToDict(r[i])["host"].s == r[i].obj.host)
            && multiset(Objs(r)) == multiset(hosts)
  {
    SameObjects(weighers, hosts);
  }
}

module WeightsExamples {
  import opened Weights

  /** A weigher that adds a fixed score per host to the running weight. */
  function Score(ws: seq<Weighed<string>>, i: nat): real {
    if i < |ws| then
      ws[i].weight + (if ws[i].obj == "h2" then 5.0 else if ws[i].obj == "h3" then 3.0 else 0.0)
    else 0.0
  }

  /** An object lighter than the first two but at least as heavy as the
      third of an ordered list lands in third place. */
  lemma SortFour<T>(h1: Weighed<T>, h2: Weighed<T>, h3: Weighed<T>, h4: Weighed<T>)
    requires h2.weight >= h3.weight > h1.weight >= h4.weight
    ensures SortDesc([h1, h2, h3, h4]) == [h2, h3, h1, h4]
  {
    var rest := [h2, h3, h4];
    assert [h1, h2, h3, h4] == [h1] + rest;
    SortDescSorted(rest);
    assert rest[1..] == [h3, h4];
    InsertThird(h1, h3, h4);
  }

  lemma InsertThird<T>(h1: Weighed<T>, h3: Weighed<T>, h4: Weighed<T>)
    requires h3.weight > h1.weight >= h4.weight
    ensures Insert(h1, [h3, h4]) == [h3, h1, h4]
  {
    assert [h3, h4][1..] == [h4];
    assert Insert(h1, [h4]) == [h1, h4];
  }

  /** The heaviest host comes first; ties keep the input order. */
  lemma OrderExample()
    ensures GetWeighedObjects([Score], ["h1", "h2", "h3", "h4"])
         == [Weighed("h2", 5.0), Weighed("h3", 3.0), Weighed("h1", 0.0), Weighed("h4", 0.0)]
  {
    var a := ApplyAll(Initial(["h1", "h2", "h3", "h4"]), [Score]);
    assert a == Apply(Initial(["h1", "h2", "h3", "h4"]), Score);
    assert a == [Weighed("h1", 0.0), Weighed("h2", 5.0), Weighed("h3", 3.0), Weighed("h4", 0.0)];
    SortFour(a[0], a[1], a[2], a[3]);
  }
}
