/**
 * The de-duplication step at the end of `process_text_into_protocols`
 * (rag_preparation/data_pipeline.py): every extracted protocol that has an `id`
 * is stored in a dictionary under that id, so a later protocol replaces an
 * earlier one with an equal id while the dictionary keeps the position where
 * the id was first inserted; protocols without an id are dropped. The loop runs
 * outside any `try`, so an element on which the `id` test or the dictionary
 * store raises makes the whole call raise.
 */
module ProtocolMerge {
  import opened Wrappers
  import opened Text
  import opened Json

  /**
   * A JSON value usable as a Python dictionary key, up to Python equality: `true`
   * and `1` and `1.0` are the same key, as are `false`, `0` and `0.0`.
   */
  datatype Key = KStr(s: string) | KNum(n: real) | KNull

  /** The dictionary key a JSON value stands for; None for a list or an object, which are unhashable. */
  function KeyOf(v: Json): (k: Option<Key>)
    ensures k.None? <==> v.JArray? || v.JObject?
    ensures v.JString? ==> k == Some(KStr(v.s))
  {
    match v
    case JNull => Some(KNull)
    case JBool(b) => Some(KNum(if b then 1.0 else 0.0))
    case JNumber(n) => Some(KNum(n))
    case JString(s) => Some(KStr(s))
    case JArray(_) => None
    case JObject(_) => None
  }

  /** What `if "id" in p: unique_protocols[p["id"]] = p` does with one element `p`. */
  datatype IdProbe = NoId | HasId(key: Key) | Raises

  /**
   * An object with a hashable `id` is stored under it, an object without one is skipped.
   * A string containing "id" raises on `p["id"]`, a list holding the string "id" too, and
   * a number, a boolean or null raise on the `in` test itself.
   */
  function ProbeId(p: Json): (r: IdProbe)
    ensures r.HasId? <==> p.JObject? && "id" in p.fields && KeyOf(p.fields["id"]).Some?
    ensures r.HasId? ==> KeyOf(p.fields["id"]) == Some(r.key)
    ensures r.NoId? ==> p.JObject? || p.JString? || p.JArray?
    ensures p.JObject? && "id" !in p.fields ==> r == NoId
    ensures r.Raises? <==>
              || p.JNull? || p.JBool? || p.JNumber?
              || (p.JString? && Contains(p.s, "id"))
              || (p.JArray? && JString("id") in p.items)
              || (p.JObject? && "id" in p.fields && KeyOf(p.fields["id"]).None?)
  {
    match p
    case JObject(f) =>
      if "id" in f then
        match KeyOf(f["id"])
        case Some(k) => HasId(k)
        case None => Raises
      else NoId
    case JString(s) => if Contains(s, "id") then Raises else NoId
    case JArray(items) => if JString("id") in items then Raises else NoId
    case JNull => Raises
    case JBool(_) => Raises
    case JNumber(_) => Raises
  }

  predicate Distinct(ks: seq<Key>) {
    forall i, j :: 0 <= i < j < |ks| ==> ks[i] != ks[j]
  }

  /** The ids of the protocols that have one, in list order (repetitions included). */
  function IdKeys(ps: seq<Json>): (ks: seq<Key>)
    ensures |ks| <= |ps|
    decreases |ps|
  {
    if ps == [] then []
    else
      var last := ProbeId(ps[|ps| - 1]);
      IdKeys(ps[..|ps| - 1]) + if last.HasId? then [last.key] else []
  }

  /** A key is among the ids exactly when some protocol carries it. */
  lemma {:induction false} IdKeysMembership(ps: seq<Json>, k: Key)
    ensures k in IdKeys(ps) <==> exists i :: 0 <= i < |ps| && ProbeId(ps[i]) == HasId(k)
    decreases |ps|
  {
    if ps != [] {
      var init := ps[..|ps| - 1];
      IdKeysMembership(init, k);
      assert forall i :: 0 <= i < |init| ==> init[i] == ps[i];
      if k in IdKeys(ps) && k !in IdKeys(init) {
        assert ProbeId(ps[|ps| - 1]) == HasId(k);
      }
    }
  }

  /** The keys in the order a dictionary holds them: each key once, where it was first inserted. */
  function Dedup(ks: seq<Key>): seq<Key>
    decreases |ks|
  {
    if ks == [] then []
    else
      var init := ks[..|ks| - 1];
      var last := ks[|ks| - 1];
      if last in init then Dedup(init) else Dedup(init) + [last]
  }

  /** The dictionary holds exactly the keys stored into it. */
  lemma {:induction false} DedupMembers(ks: seq<Key>)
    ensures forall k :: k in Dedup(ks) <==> k in ks
    decreases |ks|
  {
    if ks != [] {
      var init := ks[..|ks| - 1];
      DedupMembers(init);
      assert ks == init + [ks[|ks| - 1]];
    }
  }

  /** The dictionary holds each key once. */
  lemma {:induction false} DedupDistinct(ks: seq<Key>)
    ensures Distinct(Dedup(ks))
    decreases |ks|
  {
    if ks != [] {
      var init := ks[..|ks| - 1];
      DedupDistinct(init);
      DedupMembers(init);
    }
  }

  /** The position of the first occurrence of `k`. */
  function FirstIndex(ks: seq<Key>, k: Key): (i: nat)
    requires k in ks
    ensures i < |ks| && ks[i] == k
    ensures forall j :: 0 <= j < i ==> ks[j] != k
  {
    if ks[0] == k then 0 else 1 + FirstIndex(ks[1..], k)
  }

  /** Appending a key does not move the first occurrence of a key already present. */
  lemma {:induction false} FirstIndexAppend(ks: seq<Key>, x: Key, k: Key)
    requires k in ks
    ensures k in ks + [x] && FirstIndex(ks + [x], k) == FirstIndex(ks, k)
  {
    var i := FirstIndex(ks, k);
    var i' := FirstIndex(ks + [x], k);
    assert (ks + [x])[i] == k;
    assert ks[i'] == (ks + [x])[i'] || i' == |ks|;
  }

  /** The dictionary order is the order in which the keys first occur. */
  lemma {:induction false} DedupOrder(ks: seq<Key>)
    ensures forall k :: k in Dedup(ks) <==> k in ks
    ensures forall a, b :: 0 <= a < b < |Dedup(ks)| ==> FirstIndex(ks, Dedup(ks)[a]) < FirstIndex(ks, Dedup(ks)[b])
  {
    DedupMembers(ks);
    forall a, b | 0 <= a < b < |Dedup(ks)|
      ensures FirstIndex(ks, Dedup(ks)[a]) < FirstIndex(ks, Dedup(ks)[b])
    {
      DedupPairOrder(ks, a, b);
    }
  }

  /** One pair of dictionary positions at a time, by induction on the keys. */
  lemma {:induction false} DedupPairOrder(ks: seq<Key>, a: nat, b: nat)
    requires a < b < |Dedup(ks)|
    ensures Dedup(ks)[a] in ks && Dedup(ks)[b] in ks
    ensures FirstIndex(ks, Dedup(ks)[a]) < FirstIndex(ks, Dedup(ks)[b])
    decreases |ks|
  {
    var init := ks[..|ks| - 1];
    var last := ks[|ks| - 1];
    assert ks == init + [last];
    DedupStep(init, last);
    DedupMembers(init);
    var d := Dedup(ks);
    var di := Dedup(init);
    assert a < |di| && d[a] == di[a] && d[a] in init;
    FirstIndexAppend(init, last, d[a]);
    if b < |di| {
      assert d[b] == di[b];
      DedupPairOrder(init, a, b);
      FirstIndexAppend(init, last, d[b]);
    } else {
      assert d[b] == last && last !in init;
      assert FirstIndex(ks, last) == |ks| - 1;
    }
  }

  /** The position of the last protocol carrying `k`. */
  function LastIndex(ps: seq<Json>, k: Key): (i: nat)
    requires k in IdKeys(ps)
    ensures i < |ps| && ProbeId(ps[i]) == HasId(k)
    ensures forall j :: i < j < |ps| ==> ProbeId(ps[j]) != HasId(k)
    decreases |ps|
  {
    if ProbeId(ps[|ps| - 1]) == HasId(k) then |ps| - 1
    else LastIndex(ps[..|ps| - 1], k)
  }

  /** True when the loop meets an element on which it raises. */
  predicate SomeRaises(ps: seq<Json>) {
    exists i :: 0 <= i < |ps| && ProbeId(ps[i]).Raises?
  }

  /**
   * `list(unique_protocols.values())`, or None when the loop raises: for each id in
   * first-occurrence order, the last protocol that carries it.
   */
  function MergedById(ps: seq<Json>): (r: Option<seq<Json>>)
    ensures r.None? <==> SomeRaises(ps)
    ensures r.Some? ==> |r.value| == |Dedup(IdKeys(ps))| <= |ps|
    ensures r.Some? ==> forall j :: 0 <= j < |r.value| ==>
              ProbeId(r.value[j]).HasId? && ProbeId(r.value[j]).key in IdKeys(ps)
  {
    if SomeRaises(ps) then None
    else
      var order := Dedup(IdKeys(ps));
      DedupMembers(IdKeys(ps));
      DedupDistinct(IdKeys(ps));
      DistinctBound(order, IdKeys(ps));
      Some(seq(|order|, j requires 0 <= j < |order| => ps[LastIndex(ps, order[j])]))
  }

  /** A repetition-free sequence drawn from `ks` is no longer than `ks`. */
  lemma {:induction false} DistinctBound(d: seq<Key>, ks: seq<Key>)
    requires Distinct(d) && forall k :: k in d ==> k in ks
    ensures |d| <= |ks|
  {
    var f := set k | k in d;
    var g := set k | k in ks;
    assert f <= g;
    DistinctCard(d);
    SeqSetCard(ks);
    assert g == f + (g - f) && f * (g - f) == {};
  }

  lemma {:induction false} DistinctCard(d: seq<Key>)
    requires Distinct(d)
    ensures |set k | k in d| == |d|
    decreases |d|
  {
    if d != [] {
      var init := d[..|d| - 1];
      assert d == init + [d[|d| - 1]];
      DistinctCard(init);
      assert (set k | k in d) == (set k | k in init) + {d[|d| - 1]};
    }
  }

  lemma {:induction false} SeqSetCard(ks: seq<Key>)
    ensures |set k | k in ks| <= |ks|
    decreases |ks|
  {
    if ks != [] {
      var init := ks[..|ks| - 1];
      assert ks == init + [ks[|ks| - 1]];
      SeqSetCard(init);
      assert (set k | k in ks) == (set k | k in init) + {ks[|ks| - 1]};
    }
  }

  /** One more element of the input: how the ids, their order and the last carriers change. */
  lemma {:induction false} IdKeysStep(ps: seq<Json>, i: nat)
    requires i < |ps|
    ensures ps[..i + 1][..i] == ps[..i]
    ensures IdKeys(ps[..i + 1]) == IdKeys(ps[..i]) + if ProbeId(ps[i]).HasId? then [ProbeId(ps[i]).key] else []
  {
    assert ps[..i + 1][..i] == ps[..i];
  }

  lemma {:induction false} DedupStep(ks: seq<Key>, k: Key)
    ensures Dedup(ks + [k]) == if k in ks then Dedup(ks) else Dedup(ks) + [k]
  {
    assert (ks + [k])[..|ks|] == ks;
  }

  lemma {:induction false} LastIndexStep(ps: seq<Json>, i: nat, k: Key)
    requires i < |ps| && k in IdKeys(ps[..i + 1])
    ensures ProbeId(ps[i]) == HasId(k) ==> LastIndex(ps[..i + 1], k) == i
    ensures ProbeId(ps[i]) != HasId(k) ==> k in IdKeys(ps[..i]) && LastIndex(ps[..i + 1], k) == LastIndex(ps[..i], k)
  {
    IdKeysStep(ps, i);
  }

  /**
   * What the loop has built after the first `i` elements: `order` lists the ids seen,
   * each once, in first-occurrence order, and `table` maps each of them to the last
   * protocol seen with it.
   */
  ghost predicate MergeState(ps: seq<Json>, i: nat, order: seq<Key>, table: map<Key, Json>)
    requires i <= |ps|
  {
    && order == Dedup(IdKeys(ps[..i]))
    && KeysInOrder(order, table)
    && LastCarriers(ps[..i], table)
  }

  /** The table holds exactly the keys of the insertion order. */
  ghost predicate KeysInOrder(order: seq<Key>, table: map<Key, Json>) {
    forall k :: k in table <==> k in order
  }

  /** Each key of the table is an id of `ps`, mapped to the last protocol carrying it. */
  ghost predicate LastCarriers(ps: seq<Json>, table: map<Key, Json>) {
    forall k :: k in table ==> k in IdKeys(ps) && table[k] == ps[LastIndex(ps, k)]
  }

  lemma {:induction false} SkipStep(ps: seq<Json>, i: nat, order: seq<Key>, table: map<Key, Json>)
    requires i < |ps| && ProbeId(ps[i]).NoId? && MergeState(ps, i, order, table)
    ensures MergeState(ps, i + 1, order, table)
  {
    IdKeysStep(ps, i);
    assert IdKeys(ps[..i + 1]) == IdKeys(ps[..i]);
    forall k | k in table ensures k in IdKeys(ps[..i + 1]) && table[k] == ps[LastIndex(ps[..i + 1], k)] {
      LastIndexStep(ps, i, k);
    }
  }

  lemma {:induction false} StoreStep(ps: seq<Json>, i: nat, order: seq<Key>, table: map<Key, Json>, k: Key,
                                     order': seq<Key>, t: map<Key, Json>)
    requires i < |ps| && ProbeId(ps[i]) == HasId(k) && MergeState(ps, i, order, table)
    requires order' == (if k in table then order else order + [k]) && t == table[k := ps[i]]
    ensures MergeState(ps, i + 1, order', t)
  {
    StoreOrder(ps, i, order, table, k, order', t);
    StoreTable(ps, i, table, k, t);
  }

  /** Storing under `k` appends `k` to the insertion order exactly when it is new. */
  lemma {:induction false} StoreOrder(ps: seq<Json>, i: nat, order: seq<Key>, table: map<Key, Json>, k: Key,
                                      order': seq<Key>, t: map<Key, Json>)
    requires i < |ps| && ProbeId(ps[i]) == HasId(k)
    requires order == Dedup(IdKeys(ps[..i])) && KeysInOrder(order, table)
    requires order' == (if k in table then order else order + [k]) && t == table[k := ps[i]]
    ensures order' == Dedup(IdKeys(ps[..i + 1])) && KeysInOrder(order', t)
  {
    IdKeysStep(ps, i);
    DedupStep(IdKeys(ps[..i]), k);
    DedupMembers(IdKeys(ps[..i]));
    forall k' ensures k' in t <==> k' in order' {
      if k !in table {
        assert k' in order + [k] <==> k' in order || k' == k;
      }
    }
  }

  /** Storing under `k` makes the new protocol the last carrier of `k` and keeps the others. */
  lemma {:induction false} StoreTable(ps: seq<Json>, i: nat, table: map<Key, Json>, k: Key, t: map<Key, Json>)
    requires i < |ps| && ProbeId(ps[i]) == HasId(k)
    requires LastCarriers(ps[..i], table) && t == table[k := ps[i]]
    ensures LastCarriers(ps[..i + 1], t)
  {
    IdKeysStep(ps, i);
    LastIndexStep(ps, i, k);
    forall k' | k' in t ensures k' in IdKeys(ps[..i + 1]) && t[k'] == ps[LastIndex(ps[..i + 1], k')] {
      if k' != k {
        LastIndexStep(ps, i, k');
      }
    }
  }

  lemma {:induction false} FinalState(ps: seq<Json>, order: seq<Key>, table: map<Key, Json>)
    requires MergeState(ps, |ps|, order, table) && !SomeRaises(ps)
    ensures MergedById(ps) == Some(seq(|order|, j requires 0 <= j < |order| => table[order[j]]))
  {
    assert ps[..|ps|] == ps;
    var got := seq(|order|, j requires 0 <= j < |order| => table[order[j]]);
    var want := MergedById(ps).value;
    assert |got| == |want|;
    forall j | 0 <= j < |order| ensures got[j] == want[j] {
      assert order[j] in table;
    }
    assert got == want;
  }

  /**
   * The loop of `process_text_into_protocols`: a dictionary from id to protocol, with
   * `order` standing for the insertion order a Python dictionary keeps.
   */
  method MergeById(ps: seq<Json>) returns (r: Option<seq<Json>>)
    ensures r == MergedById(ps)
  {
    var order: seq<Key> := [];
    var table: map<Key, Json> := map[];
    for i := 0 to |ps|
      invariant MergeState(ps, i, order, table)
      invariant forall j :: 0 <= j < i ==> !ProbeId(ps[j]).Raises?
    {
      match ProbeId(ps[i])
      case Raises =>
        return None;
      case NoId =>
        SkipStep(ps, i, order, table);
      case HasId(k) =>
        StoreStep(ps, i, order, table, k, if k in table then order else order + [k], table[k := ps[i]]);
        if k !in table {
          order := order + [k];
        }
        table := table[k := ps[i]];
    }
    FinalState(ps, order, table);
    r := Some(seq(|order|, j requires 0 <= j < |order| => table[order[j]]));
  }

  /** Every merged protocol has an id, and no two of them have equal ids. */
  lemma {:induction false} MergedIdsDistinct(ps: seq<Json>)
    requires MergedById(ps).Some?
    ensures forall j :: 0 <= j < |MergedById(ps).value| ==> ProbeId(MergedById(ps).value[j]).HasId?
    ensures forall a, b :: 0 <= a < b < |MergedById(ps).value| ==>
              ProbeId(MergedById(ps).value[a]).key != ProbeId(MergedById(ps).value[b]).key
  {
    var qs := MergedById(ps).value;
    var order := Dedup(IdKeys(ps));
    DedupMembers(IdKeys(ps));
    DedupDistinct(IdKeys(ps));
    assert forall j :: 0 <= j < |qs| ==> ProbeId(qs[j]) == HasId(order[j]);
  }

  /**
   * Last one wins: the merged entry for an id is the last protocol in the input that
   * carries that id, and an id is merged exactly when some protocol carries it.
   */
  lemma {:induction false} MergedLastWins(ps: seq<Json>, k: Key)
    requires MergedById(ps).Some?
    ensures (exists j :: 0 <= j < |MergedById(ps).value| && ProbeId(MergedById(ps).value[j]) == HasId(k))
            <==> (exists i :: 0 <= i < |ps| && ProbeId(ps[i]) == HasId(k))
    ensures forall j :: 0 <= j < |MergedById(ps).value| && ProbeId(MergedById(ps).value[j]) == HasId(k) ==>
              k in IdKeys(ps) && MergedById(ps).value[j] == ps[LastIndex(ps, k)]
  {
    var qs := MergedById(ps).value;
    var order := Dedup(IdKeys(ps));
    IdKeysMembership(ps, k);
    DedupMembers(IdKeys(ps));
    assert forall j :: 0 <= j < |qs| ==> ProbeId(qs[j]) == HasId(order[j]);
    if k in IdKeys(ps) {
      var j :| 0 <= j < |order| && order[j] == k;
      assert ProbeId(qs[j]) == HasId(k);
    }
  }

  /** The merged protocols keep the order in which their ids first appear. */
  lemma {:induction false} MergedFirstOccurrenceOrder(ps: seq<Json>)
    requires MergedById(ps).Some?
    ensures forall a, b :: 0 <= a < b < |MergedById(ps).value| ==>
              FirstIndex(IdKeys(ps), ProbeId(MergedById(ps).value[a]).key) < FirstIndex(IdKeys(ps), ProbeId(MergedById(ps).value[b]).key)
  {
    var qs := MergedById(ps).value;
    var order := Dedup(IdKeys(ps));
    DedupOrder(IdKeys(ps));
    DedupMembers(IdKeys(ps));
    assert forall j :: 0 <= j < |qs| ==> ProbeId(qs[j]).key == order[j];
  }

  /**
   * Two protocols whose ids are equal as dictionary keys merge into the later one; with
   * Python's key equality this includes ids `true` and `1`, or `0` and `false`.
   */
  lemma {:induction false} EqualIdsCollide(p: Json, q: Json, k: Key)
    requires ProbeId(p) == HasId(k) && ProbeId(q) == HasId(k)
    ensures MergedById([p, q]) == Some([q])
  {
    var ps := [p, q];
    SameIdTwice(p, q, k);
    assert LastIndex(ps, k) == 1;
    var m := MergedById(ps).value;
    assert |m| == 1 && m[0] == q;
    assert m == [q];
  }

  /** Two protocols with the same id: that id twice, collapsed once, and nothing raises. */
  lemma {:induction false} SameIdTwice(p: Json, q: Json, k: Key)
    requires ProbeId(p) == HasId(k) && ProbeId(q) == HasId(k)
    ensures IdKeys([p, q]) == [k, k] && Dedup(IdKeys([p, q])) == [k] && !SomeRaises([p, q])
  {
    var ps := [p, q];
    assert ps[..1] == [p] && [p][..0] == [];
    assert [k][..0] == [];
    DedupStep([k], k);
    assert [k] + [k] == [k, k];
    assert forall i :: 0 <= i < |ps| ==> ProbeId(ps[i]).HasId?;
  }

  /** `true` and `1` are one dictionary key, so protocols with those ids collide. */
  lemma BoolAndNumberKeysEqual()
    ensures KeyOf(JBool(true)) == KeyOf(JNumber(1.0)) && KeyOf(JBool(false)) == KeyOf(JNumber(0.0))
  {
  }
}
