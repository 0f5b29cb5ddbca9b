/**
  Dictionaries in cut-off messages. The reader's loop takes an end pointer for a missing
  key or value, as it does for a missing item of a list, but hands it to PyDict_SetItem,
  which is undefined. That happens for just the cuts that leave a pair of a dictionary
  incomplete and tear nothing (what is torn is reported before a pair is missed).
*/
module Dictionaries {
  import opened Values
  import opened Truncation

  // -- Where the cut leaves a pair incomplete -------------------------------------------

  /** The cut is inside the pairs of a dictionary of the tree and leaves one of them
      without its value, or altogether behind the cut. */
  predicate PartsPairs(v: Value, k: nat)
    decreases v, 1
  {
    k >= Needed(v) &&
    match v
    case Dict(pairs) => LeavesPair(pairs, k - Needed(v))
    case Sequence(items) => PartsPairsAll(items, k - Needed(v))
    case Set(items) => PartsPairsAll(items, k - Needed(v))
    case _ => false
  }

  predicate PartsPairsAll(vs: seq<Value>, k: nat)
    decreases vs, 0
  {
    vs != [] && if k < |Encode(vs[0])| then PartsPairs(vs[0], k) else PartsPairsAll(vs[1..], k - |Encode(vs[0])|)
  }

  predicate LeavesPair(ps: seq<Pair>, k: nat)
    decreases ps, 0
  {
    ps != [] &&
    if k < |EncodePair(ps[0])| then |ps| > 1 || PartsPair(ps[0], k) else LeavesPair(ps[1..], k - |EncodePair(ps[0])|)
  }

  predicate PartsPair(p: Pair, k: nat)
    decreases p, 0
  {
    k <= |Encode(p.key)| || PartsPairs(p.value, k - |Encode(p.key)|)
  }

  // -- What the reader makes of it ---------------------------------------------------------

  /** No key and no value of this node is an end pointer. */
  ghost predicate Whole(v: Value) { v.Dict? ==> forall i :: 0 <= i < |v.pairs| ==> WholePair(v.pairs[i]) }

  predicate WholePair(p: Pair) { !p.key.EndPointer? && !p.value.EndPointer? }

  ghost predicate WholeAll(vs: seq<Value>) { forall i :: 0 <= i < |vs| ==> Everywhere(Whole, vs[i]) }

  ghost predicate WholePairs(ps: seq<Pair>) {
    forall i :: 0 <= i < |ps| ==> WholePair(ps[i]) && EverywhereInPair(Whole, ps[i])
  }

  lemma WholeContainer(v: Value)
    ensures v.Dict? ==> (Everywhere(Whole, v) <==> WholePairs(v.pairs))
    ensures v.Sequence? ==> (Everywhere(Whole, v) <==> WholeAll(v.items))
  {
    hide EverywhereInPair, WholePair;
  }

  lemma WholeCons(v: Value, vs: seq<Value>)
    ensures WholeAll([v] + vs) <==> Everywhere(Whole, v) && WholeAll(vs)
  {
    hide Everywhere;
    var all := [v] + vs;
    assert all[0] == v && all[1..] == vs;
    assert forall i :: 0 <= i < |vs| ==> vs[i] == all[i + 1];
    assert forall i :: 1 <= i < |all| ==> all[i] == vs[i - 1];
  }

  lemma WholePairsCons(p: Pair, ps: seq<Pair>)
    ensures WholePairs([p] + ps) <==> WholePair(p) && EverywhereInPair(Whole, p) && WholePairs(ps)
  {
    hide EverywhereInPair, WholePair;
    var all := [p] + ps;
    assert all[0] == p && all[1..] == ps;
    assert forall i :: 0 <= i < |ps| ==> ps[i] == all[i + 1];
    assert forall i :: 1 <= i < |all| ==> all[i] == ps[i - 1];
  }

  lemma {:induction false} EndsWhole(n: nat)
    ensures WholeAll(Ends(n))
  {
    if n > 0 {
      EndsWhole(n - 1);
      hide WholeAll;
      WholeCons(EndPointer, Ends(n - 1));
    }
  }

  lemma EndPairsNotWhole(n: nat)
    ensures WholePairs(EndPairs(n)) <==> n == 0
  {
    if n > 0 {
      assert EndPairs(n)[0] == Pair(EndPointer, EndPointer);
    }
  }

  /** What was read in full is whole. */
  lemma {:induction false} NormalWhole(v: Value)
    requires Everywhere(Known, v)
    ensures Everywhere(Whole, Normal(v)) && !Normal(v).EndPointer?
    decreases v, 1
  {
    hide WholeAll, WholePairs, EverywhereInPair;
    match v
    case Dict(pairs) => NormalWholePairs(pairs); WholeContainer(Normal(v));
    case Sequence(items) => NormalWholeAll(items); WholeContainer(Normal(v));
    case Set(items) => NormalWholeAll(items); WholeContainer(Normal(v));
    case _ =>
  }

  lemma {:induction false} NormalWholeAll(vs: seq<Value>)
    requires forall i :: 0 <= i < |vs| ==> Everywhere(Known, vs[i])
    ensures WholeAll(NormalAll(vs))
    decreases vs, 0
  {
    hide Everywhere, Normal;
    if vs != [] {
      NormalWhole(vs[0]);
      NormalWholeAll(vs[1..]);
      WholeCons(Normal(vs[0]), NormalAll(vs[1..]));
    }
  }

  lemma {:induction false} NormalWholePairs(ps: seq<Pair>)
    requires forall i :: 0 <= i < |ps| ==> EverywhereInPair(Known, ps[i])
    ensures WholePairs(NormalPairs(ps))
    decreases ps, 0
  {
    hide NormalPair, EverywhereInPair, WholePairs, WholePair;
    NoPairsWhole();
    if ps != [] {
      NormalWholePair(ps[0]);
      NormalWholePairs(ps[1..]);
      WholePairsCons(NormalPair(ps[0]), NormalPairs(ps[1..]));
    }
  }

  lemma NoPairsWhole()
    ensures WholePairs([])
  {}

  lemma {:induction false} NormalWholePair(p: Pair)
    requires EverywhereInPair(Known, p)
    ensures WholePair(NormalPair(p)) && EverywhereInPair(Whole, NormalPair(p))
    decreases p, 0
  {
    hide Everywhere, Normal;
    NormalWhole(p.key);
    NormalWhole(p.value);
  }

  // -- Exactly the incomplete pairs --------------------------------------------------------

  lemma {:induction false} CroppedWhole(v: Value, k: nat)
    requires Everywhere(Known, v) && k < |Encode(v)|
    ensures !Torn(v, k) ==> (Everywhere(Whole, Cropped(v, k)) <==> !PartsPairs(v, k))
    decreases v, 2
  {
    hide WholeAll, WholePairs, EverywhereInPair, Known, Encode;
    NotEmptyEverywhere(v);
    match v
    case Dict(pairs) => CroppedWholeDict(pairs, k);
    case Sequence(items) => CroppedWholeList(v, items, k);
    case Set(items) => CroppedWholeList(v, items, k);
    case _ => CroppedLeaf(v, k);
  }

  lemma NotEmptyEverywhere(v: Value)
    requires Everywhere(Known, v)
    ensures 0 < Needed(v) <= |Encode(v)|
  {
    hide Known, Needed, Encode;
    NotEmpty(v);
  }

  lemma CroppedLeaf(v: Value, k: nat)
    requires Everywhere(Known, v) && !IsContainer(v) && Needed(v) > 0
    ensures Everywhere(Whole, Cropped(v, k)) && !PartsPairs(v, k)
  {
    hide Needed, Known;
  }

  lemma {:induction false} CroppedWholeList(v: Value, vs: seq<Value>, k: nat)
    requires v == Sequence(vs) || v == Set(vs)
    requires (forall i :: 0 <= i < |vs| ==> Everywhere(Known, vs[i])) && k < |Encode(v)| && Needed(v) > 0
    ensures !Torn(v, k) ==> (Everywhere(Whole, Cropped(v, k)) <==> !PartsPairs(v, k))
    decreases vs, 1
  {
    hide Everywhere, TornAll, CroppedAll, PartsPairsAll, WholeAll, EncodeAll, Encode, Needed, Torn, Cropped, PartsPairs;
    ListUnfolded(v, vs, k);
    EndWhole();
    if k >= Needed(v) {
      WholeContainer(Cropped(v, k));
      ListLeft(v, vs, k);
      CroppedWholeAll(vs, k - Needed(v));
    }
  }

  lemma ListUnfolded(v: Value, vs: seq<Value>, k: nat)
    requires (v == Sequence(vs) || v == Set(vs)) && Needed(v) > 0
    ensures k < Needed(v) ==> !PartsPairs(v, k) && (Torn(v, k) || Cropped(v, k) == EndPointer)
    ensures k >= Needed(v) ==>
      && Torn(v, k) == TornAll(vs, k - Needed(v))
      && Cropped(v, k) == Sequence(CroppedAll(vs, k - Needed(v)))
      && PartsPairs(v, k) == PartsPairsAll(vs, k - Needed(v))
  {
    hide Needed, TornAll, CroppedAll, PartsPairsAll;
  }

  lemma EndWhole()
    ensures Everywhere(Whole, EndPointer)
  {}

  lemma ListLeft(v: Value, vs: seq<Value>, k: nat)
    requires (v == Sequence(vs) || v == Set(vs)) && Needed(v) <= k < |Encode(v)|
    ensures k - Needed(v) < |EncodeAll(vs)|
  {
    hide EncodeAll;
  }

  lemma DictLeft(ps: seq<Pair>, k: nat)
    requires Needed(Dict(ps)) <= k < |Encode(Dict(ps))|
    ensures k - Needed(Dict(ps)) < |EncodePairs(ps)|
  {
    hide EncodePairs;
  }

  lemma {:induction false} CroppedWholeDict(ps: seq<Pair>, k: nat)
    requires forall i :: 0 <= i < |ps| ==> EverywhereInPair(Known, ps[i])
    requires k < |Encode(Dict(ps))| && Needed(Dict(ps)) > 0
    ensures !Torn(Dict(ps), k) ==> (Everywhere(Whole, Cropped(Dict(ps), k)) <==> !PartsPairs(Dict(ps), k))
    decreases ps, 1
  {
    hide Everywhere, EverywhereInPair, TornPairs, CroppedPairs, LeavesPair, WholeAll, EncodePairs, WholePairs, Encode,
         Needed, Normal;
    var v := Dict(ps);
    if k >= Needed(v) {
      WholeContainer(Cropped(v, k));
      DictLeft(ps, k);
      CroppedWholePairs(ps, k - Needed(v));
    } else if k == 0 {
      EndWhole();
    }
  }

  lemma {:induction false} CroppedWholeAll(vs: seq<Value>, k: nat)
    requires forall i :: 0 <= i < |vs| ==> Everywhere(Known, vs[i])
    requires k < |EncodeAll(vs)|
    ensures !TornAll(vs, k) ==> (WholeAll(CroppedAll(vs, k)) <==> !PartsPairsAll(vs, k))
    decreases vs, 0
  {
    hide Encode, Everywhere, Torn, Cropped, Normal, PartsPairs, WholeAll;
    if k < |Encode(vs[0])| {
      CroppedWhole(vs[0], k);
      WholeCons(Cropped(vs[0], k), Ends(|vs| - 1));
      EndsWhole(|vs| - 1);
    } else {
      CroppedWholeAll(vs[1..], k - |Encode(vs[0])|);
      NormalWhole(vs[0]);
      WholeCons(Normal(vs[0]), CroppedAll(vs[1..], k - |Encode(vs[0])|));
    }
  }

  lemma {:induction false} CroppedWholePairs(ps: seq<Pair>, k: nat)
    requires forall i :: 0 <= i < |ps| ==> EverywhereInPair(Known, ps[i])
    requires k < |EncodePairs(ps)|
    ensures !TornPairs(ps, k) ==> (WholePairs(CroppedPairs(ps, k)) <==> !LeavesPair(ps, k))
    decreases ps, 0
  {
    hide EncodePair, Everywhere, TornPair, CroppedPair, NormalPair, PartsPair, WholePairs, WholePair;
    if k < |EncodePair(ps[0])| {
      CroppedWholePair(ps[0], k);
      WholePairsCons(CroppedPair(ps[0], k), EndPairs(|ps| - 1));
      EndPairsNotWhole(|ps| - 1);
    } else {
      CroppedWholePairs(ps[1..], k - |EncodePair(ps[0])|);
      NormalWholePair(ps[0]);
      WholePairsCons(NormalPair(ps[0]), CroppedPairs(ps[1..], k - |EncodePair(ps[0])|));
    }
  }

  lemma {:induction false} CroppedWholePair(p: Pair, k: nat)
    requires EverywhereInPair(Known, p) && k < |EncodePair(p)|
    ensures !TornPair(p, k) ==>
      (WholePair(CroppedPair(p, k)) && EverywhereInPair(Whole, CroppedPair(p, k)) <==> !PartsPair(p, k))
    decreases p, 0
  {
    hide Encode, Everywhere, Torn, Cropped, Normal, PartsPairs, Known;
    if k >= |Encode(p.key)| {
      var rest := k - |Encode(p.key)|;
      NormalWhole(p.key);
      CroppedWhole(p.value, rest);
      if rest == 0 {
        NothingCropped(p.value);
      } else {
        Root(p.value);
        CroppedIsNoEnd(p.value, rest);
      }
    }
  }

  lemma NothingCropped(v: Value)
    ensures Cropped(v, 0) == EndPointer
  {}

  // -- Trees and messages ------------------------------------------------------------------

  /** Of a cut-off tree that is read without an error the source defines the reading
      exactly when the cut leaves no pair of a dictionary incomplete. */
  lemma CutDefined(v: Value, k: nat, unset: nat)
    requires Everywhere(Known, v) && Everywhere(Fits, v) && k < |Encode(v)| && !Torn(v, k)
    ensures var r := DecodeValue(Encode(v)[..k], 0, unset).value;
      r.Some? && (Everywhere(Whole, r.value) <==> !PartsPairs(v, k))
  {
    hide DecodeValue, Encode, Everywhere, Torn, Cropped, PartsPairs;
    CutReported(v, k, unset);
    CroppedWhole(v, k);
  }

  lemma {:induction false} MessageWhole(vs: seq<Value>, k: nat)
    requires (forall i :: 0 <= i < |vs| ==> Everywhere(Known, vs[i])) && k <= |EncodeAll(vs)|
    ensures !TornAll(vs, k) ==> (WholeAll(CroppedMessage(vs, k)) <==> !PartsPairsAll(vs, k))
    decreases |vs|
  {
    hide Encode, Everywhere, Torn, Cropped, Normal, PartsPairs, WholeAll;
    NothingWhole();
    if vs != [] {
      if k < |Encode(vs[0])| {
        CroppedWhole(vs[0], k);
        WholeCons(Cropped(vs[0], k), []);
        assert [Cropped(vs[0], k)] + [] == [Cropped(vs[0], k)];
        if k == 0 {
          NothingCropped(vs[0]);
          EndWhole();
        }
      } else {
        MessageWhole(vs[1..], k - |Encode(vs[0])|);
        NormalWhole(vs[0]);
        WholeCons(Normal(vs[0]), CroppedMessage(vs[1..], k - |Encode(vs[0])|));
      }
    }
  }

  lemma NothingWhole()
    ensures WholeAll([])
  {}

  /** The same for a whole message. */
  lemma CutMessageDefined(vs: seq<Value>, k: nat, unset: nat)
    requires forall i :: 0 <= i < |vs| ==> Everywhere(Known, vs[i]) && Everywhere(Fits, vs[i])
    requires k <= |EncodeAll(vs)| && !TornAll(vs, k)
    ensures var r := DecodeAll(EncodeAll(vs)[..k], 0, unset).items;
      r.Some? && (WholeAll(r.value) <==> !PartsPairsAll(vs, k))
  {
    hide DecodeAll, EncodeAll, Everywhere, TornAll, CroppedMessage, PartsPairsAll, WholeAll;
    CutMessageReported(vs, k, unset);
    MessageWhole(vs, k);
  }

  /** The dictionary of 1 to 2 cut in front of the 2. */
  lemma CutDictionary()
    ensures var v := Dict([Pair(Int(1), Int(2))]);
      Encode(v) == [0xe1, 1, 2] && !Torn(v, 2) && PartsPairs(v, 2)
  {
    var p := Pair(Int(1), Int(2));
    assert Encode(Int(1)) == [1] && Encode(Int(2)) == [2];
    assert EncodePair(p) == [1, 2];
    assert [p][1..] == [];
    assert EncodePairs([p]) == [1, 2];
    assert Encode(Dict([p])) == [0xe1, 1, 2];
    assert Needed(Dict([p])) == 1;
    assert !Torn(Int(2), 0);
  }
}
