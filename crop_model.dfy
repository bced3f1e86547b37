/**
 * The top-crop predictor of the crop-recommendation service: the
 * classifier's probability row is ranked, cut to the best four classes,
 * decoded to crop names, and the classes of probability zero are dropped.
 *
 * The fitted scaler, the k-nearest-neighbours classifier and the sort used
 * for ranking are library code; they enter the model as the fields of a
 * `Trained` context, and `Valid` states what the model relies on about them.
 */
module CropModel {
  import opened Wrappers
  import opened PyDict

  /** How many crops are reported at most (`top_n`). */
  const TopN: nat := 4

  /** One sample as it reaches `top_crops`: Python `None`, or the feature vector. */
  type Sample = Option<seq<real>>

  /** The artifacts trained once at start-up. */
  datatype Trained = Trained(
    /** `le_crop.classes_`: the crop name of each class code. */
    labels: seq<string>,
    /** `knn.predict_proba(scaler.transform(samples))`: one probability row per
        sample and one column per class code, or the message of the exception. */
    proba: seq<Sample> -> Result<seq<seq<real>>, string>,
    /** `np.argsort(p)[::-1]`: the class indices by non-increasing probability. */
    argsortDesc: seq<real> -> seq<nat>)

  function Min(a: int, b: int): int {
    if a < b then a else b
  }

  /** No element of `s` occurs twice. */
  ghost predicate NoDuplicates<T>(s: seq<T>) {
    forall i, j :: 0 <= i < j < |s| ==> s[i] != s[j]
  }

  /** `ranking` is a permutation of the class indices of `probs` listed by
      non-increasing probability. Equal probabilities may come in any order. */
  ghost predicate IsDescendingRanking(probs: seq<real>, ranking: seq<nat>) {
    && |ranking| == |probs|
    && (forall i :: 0 <= i < |ranking| ==> ranking[i] < |probs|)
    && (forall c :: 0 <= c < |probs| ==> c in ranking)
    && NoDuplicates(ranking)
    && (forall i, j :: 0 <= i < j < |ranking| ==> probs[ranking[i]] >= probs[ranking[j]])
  }

  /** A probability matrix for `count` samples over `classes` classes. */
  ghost predicate ProbabilityRows(rows: seq<seq<real>>, count: nat, classes: nat) {
    && |rows| == count
    && forall r :: 0 <= r < |rows| ==>
         |rows[r]| == classes && forall c :: 0 <= c < classes ==> 0.0 <= rows[r][c] <= 1.0
  }

  /** What the model relies on about the trained artifacts. */
  ghost predicate Valid(ctx: Trained) {
    // the label encoder maps distinct class codes to distinct crop names
    && NoDuplicates(ctx.labels)
    && (forall batch :: ctx.proba(batch).Success? ==>
          ProbabilityRows(ctx.proba(batch).value, |batch|, |ctx.labels|))
    // a `None` sample cannot be converted to a numeric array by the scaler
    && (forall batch :: None in batch ==> ctx.proba(batch).Failure?)
    && (forall probs :: IsDescendingRanking(probs, ctx.argsortDesc(probs)))
  }

  /** The class indices whose probability is positive. */
  ghost function PositiveClasses(probs: seq<real>): set<nat> {
    set c: nat | c < |probs| && probs[c] > 0.0
  }

  /** The (crop, probability) pair of class `c`. */
  function Entry(labels: seq<string>, probs: seq<real>, c: nat): (string, real)
    requires |probs| == |labels| && c < |probs|
  {
    (labels[c], probs[c])
  }

  /** The (crop, probability) pair of every class, by class code. */
  function ClassEntries(labels: seq<string>, probs: seq<real>): seq<(string, real)>
    requires |probs| == |labels|
  {
    seq(|probs|, c requires 0 <= c < |probs| => Entry(labels, probs, c))
  }

  /** The entries of the classes `idx`, in order, keeping only those of
      positive probability. */
  function PositiveEntries(labels: seq<string>, probs: seq<real>, idx: seq<nat>): seq<(string, real)>
    requires |probs| == |labels|
    requires forall i :: 0 <= i < |idx| ==> idx[i] < |probs|
  {
    if idx == [] then []
    else
      var c := idx[|idx| - 1];
      var rest := PositiveEntries(labels, probs, idx[..|idx| - 1]);
      if probs[c] > 0.0 then rest + [Entry(labels, probs, c)] else rest
  }

  /** The positive-probability entries among the first `TopN` ranked classes. */
  function TopSelection(labels: seq<string>, probs: seq<real>, ranking: seq<nat>): Dict<string, real>
    requires |probs| == |labels| && IsDescendingRanking(probs, ranking)
  {
    PositiveEntries(labels, probs, ranking[..Min(TopN, |ranking|)])
  }

  /**
   * `sel` is a best-`TopN` selection for the probability row `probs`: as many
   * entries as there are positive classes, up to `TopN`; each is a crop and
   * its own probability, which is positive; no crop twice; probabilities
   * non-increasing in order; and no crop left out has a higher probability
   * than one kept.
   */
  ghost predicate IsTopSelection(labels: seq<string>, probs: seq<real>, sel: Dict<string, real>)
    requires |probs| == |labels|
  {
    && |sel| == Min(TopN, |PositiveClasses(probs)|)
    && DistinctKeys(sel)
    && (forall i :: 0 <= i < |sel| ==> 0.0 < sel[i].1)
    && (forall i, j :: 0 <= i < j < |sel| ==> sel[i].1 >= sel[j].1)
    && (forall i :: 0 <= i < |sel| ==> sel[i] in ClassEntries(labels, probs))
    && (forall i, c :: 0 <= i < |sel| && 0 <= c < |probs| && !HasKey(sel, labels[c]) ==>
          probs[c] <= sel[i].1)
  }

  /** The index of the first class from position `from` on in `ranking`
      whose probability is not positive, or `|ranking|`. */
  function Boundary(probs: seq<real>, ranking: seq<nat>, from: nat): (q: nat)
    requires from <= |ranking|
    requires forall i :: 0 <= i < |ranking| ==> ranking[i] < |probs|
    ensures from <= q <= |ranking|
    ensures forall i :: from <= i < q ==> probs[ranking[i]] > 0.0
    ensures q < |ranking| ==> probs[ranking[q]] <= 0.0
    decreases |ranking| - from
  {
    if from == |ranking| || probs[ranking[from]] <= 0.0 then from
    else Boundary(probs, ranking, from + 1)
  }

  /** The first `q` entries of a sequence without repetitions are `q` distinct values. */
  lemma {:induction false} DistinctPrefixCard(s: seq<nat>, q: nat)
    requires q <= |s|
    requires NoDuplicates(s)
    ensures |set i | 0 <= i < q :: s[i]| == q
  {
    if q > 0 {
      DistinctPrefixCard(s, q - 1);
      var a := set i | 0 <= i < q - 1 :: s[i];
      var b := set i | 0 <= i < q :: s[i];
      assert b == a + {s[q - 1]};
      assert s[q - 1] !in a;
    }
  }

  /** When the positive classes of `idx` are exactly its first `k`, filtering
      keeps exactly the entries of those `k`. */
  lemma {:induction false} PositiveEntriesOfSplit(labels: seq<string>, probs: seq<real>, idx: seq<nat>, k: nat)
    requires |probs| == |labels|
    requires forall i :: 0 <= i < |idx| ==> idx[i] < |probs|
    requires k <= |idx|
    requires forall i :: 0 <= i < k ==> probs[idx[i]] > 0.0
    requires forall i :: k <= i < |idx| ==> probs[idx[i]] <= 0.0
    ensures PositiveEntries(labels, probs, idx) == seq(k, i requires 0 <= i < k => Entry(labels, probs, idx[i]))
  {
    if idx != [] {
      var init := idx[..|idx| - 1];
      if k < |idx| {
        PositiveEntriesOfSplit(labels, probs, init, k);
      } else {
        PositiveEntriesOfSplit(labels, probs, init, k - 1);
      }
    }
  }

  /** In a descending ranking the positive classes come first, and there are
      `|PositiveClasses(probs)|` of them. */
  lemma PositivesLeadRanking(probs: seq<real>, ranking: seq<nat>) returns (q: nat)
    requires IsDescendingRanking(probs, ranking)
    ensures q == |PositiveClasses(probs)| && q <= |ranking|
    ensures forall i :: 0 <= i < q ==> probs[ranking[i]] > 0.0
    ensures forall i :: q <= i < |ranking| ==> probs[ranking[i]] <= 0.0
  {
    q := Boundary(probs, ranking, 0);
    forall i | q <= i < |ranking| ensures probs[ranking[i]] <= 0.0 {
      if q < i {
        assert probs[ranking[q]] >= probs[ranking[i]];
      }
    }
    PositivesArePrefix(probs, ranking, q);
    DistinctPrefixCard(ranking, q);
  }

  /** When the first `q` ranked classes are the positive ones, they are all of them. */
  lemma PositivesArePrefix(probs: seq<real>, ranking: seq<nat>, q: nat)
    requires IsDescendingRanking(probs, ranking) && q <= |ranking|
    requires forall i :: 0 <= i < q ==> probs[ranking[i]] > 0.0
    requires forall i :: q <= i < |ranking| ==> probs[ranking[i]] <= 0.0
    ensures PositiveClasses(probs) == set i | 0 <= i < q :: ranking[i]
  {
    var prefix := set i | 0 <= i < q :: ranking[i];
    forall c | c in PositiveClasses(probs) ensures c in prefix {
      assert c in ranking;
      var j :| 0 <= j < |ranking| && ranking[j] == c;
    }
  }

  /** The selection is the entries of the first `Min(TopN, q)` ranked classes,
      `q` being the number of positive classes. */
  lemma TopSelectionIsRankPrefix(labels: seq<string>, probs: seq<real>, ranking: seq<nat>) returns (k: nat)
    requires |probs| == |labels| && IsDescendingRanking(probs, ranking)
    ensures k == Min(TopN, |PositiveClasses(probs)|) && k <= |ranking|
    ensures forall i :: 0 <= i < k ==> probs[ranking[i]] > 0.0
    ensures TopSelection(labels, probs, ranking) == RankPrefix(labels, probs, ranking, k)
  {
    var q := PositivesLeadRanking(probs, ranking);
    var m := Min(TopN, |ranking|);
    k := Min(TopN, q);
    PositiveEntriesOfSplit(labels, probs, ranking[..m], k);
  }

  /** The entries of the first `k` classes of a ranking. */
  function RankPrefix(labels: seq<string>, probs: seq<real>, ranking: seq<nat>, k: nat): Dict<string, real>
    requires |probs| == |labels| && IsDescendingRanking(probs, ranking) && k <= |ranking|
  {
    seq(k, i requires 0 <= i < k => Entry(labels, probs, ranking[i]))
  }

  /** Decoding distinct classes with distinct labels gives distinct crops. */
  lemma RankPrefixDistinct(labels: seq<string>, probs: seq<real>, ranking: seq<nat>, k: nat)
    requires NoDuplicates(labels) && |probs| == |labels| && IsDescendingRanking(probs, ranking) && k <= |ranking|
    ensures DistinctKeys(RankPrefix(labels, probs, ranking, k))
  {
    var sel := RankPrefix(labels, probs, ranking, k);
    forall i, j | 0 <= i < j < k ensures sel[i].0 != sel[j].0 {
      assert ranking[i] != ranking[j];
    }
  }

  /** A crop outside the first `k` ranked classes holds no more probability
      than any crop inside. */
  lemma RankPrefixDominates(labels: seq<string>, probs: seq<real>, ranking: seq<nat>, k: nat)
    requires |probs| == |labels| && IsDescendingRanking(probs, ranking) && k <= |ranking|
    ensures var sel := RankPrefix(labels, probs, ranking, k);
      forall i, c :: 0 <= i < k && 0 <= c < |probs| && !HasKey(sel, labels[c]) ==> probs[c] <= sel[i].1
  {
    var sel := RankPrefix(labels, probs, ranking, k);
    forall j | 0 <= j < k ensures HasKey(sel, labels[ranking[j]]) {
      assert sel[j].0 == labels[ranking[j]];
    }
    forall i, c | 0 <= i < k && 0 <= c < |probs| && !HasKey(sel, labels[c])
      ensures probs[c] <= sel[i].1
    {
      assert c in ranking;
      var j :| 0 <= j < |ranking| && ranking[j] == c;
    }
  }

  /** Each entry of the first `k` ranked classes is a crop with its own probability. */
  lemma RankPrefixMembers(labels: seq<string>, probs: seq<real>, ranking: seq<nat>, k: nat)
    requires |probs| == |labels| && IsDescendingRanking(probs, ranking) && k <= |ranking|
    ensures forall i :: 0 <= i < k ==> RankPrefix(labels, probs, ranking, k)[i] in ClassEntries(labels, probs)
  {
    forall i | 0 <= i < k ensures RankPrefix(labels, probs, ranking, k)[i] in ClassEntries(labels, probs) {
      assert ClassEntries(labels, probs)[ranking[i]] == RankPrefix(labels, probs, ranking, k)[i];
    }
  }

  /** The first `min(TopN, |PositiveClasses(probs)|)` ranked classes form a
      best-`TopN` selection. */
  lemma RankPrefixIsTop(labels: seq<string>, probs: seq<real>, ranking: seq<nat>, k: nat)
    requires NoDuplicates(labels) && |probs| == |labels| && IsDescendingRanking(probs, ranking)
    requires k == Min(TopN, |PositiveClasses(probs)|) && k <= |ranking|
    requires forall i :: 0 <= i < k ==> probs[ranking[i]] > 0.0
    ensures IsTopSelection(labels, probs, RankPrefix(labels, probs, ranking, k))
  {
    var sel := RankPrefix(labels, probs, ranking, k);
    RankPrefixDistinct(labels, probs, ranking, k);
    RankPrefixDominates(labels, probs, ranking, k);
    RankPrefixMembers(labels, probs, ranking, k);
    assert forall i :: 0 <= i < k ==> 0.0 < sel[i].1;
    assert forall i, j :: 0 <= i < j < k ==> sel[i].1 >= sel[j].1;
  }

  /** The main property of `top_crops`: whatever order the sort puts equal
      probabilities in, the result is a best-`TopN` selection. */
  lemma TopSelectionIsTop(labels: seq<string>, probs: seq<real>, ranking: seq<nat>)
    requires NoDuplicates(labels) && |probs| == |labels| && IsDescendingRanking(probs, ranking)
    ensures IsTopSelection(labels, probs, TopSelection(labels, probs, ranking))
  {
    var k := TopSelectionIsRankPrefix(labels, probs, ranking);
    RankPrefixIsTop(labels, probs, ranking, k);
  }

  /** The class probabilities are probabilities, so every reported one lies in (0, 1]. */
  lemma TopSelectionInUnitInterval(labels: seq<string>, probs: seq<real>, ranking: seq<nat>)
    requires NoDuplicates(labels) && |probs| == |labels| && IsDescendingRanking(probs, ranking)
    requires forall c :: 0 <= c < |probs| ==> 0.0 <= probs[c] <= 1.0
    ensures forall i :: 0 <= i < |TopSelection(labels, probs, ranking)| ==>
              0.0 < TopSelection(labels, probs, ranking)[i].1 <= 1.0
  {
    var sel := TopSelection(labels, probs, ranking);
    TopSelectionIsTop(labels, probs, ranking);
    forall i | 0 <= i < |sel| ensures sel[i].1 <= 1.0 {
      var c :| 0 <= c < |probs| && ClassEntries(labels, probs)[c] == sel[i];
    }
  }

  /** When all probability mass lies on one class, exactly that crop is reported. */
  lemma SingleClassMass(labels: seq<string>, probs: seq<real>, ranking: seq<nat>, c: nat)
    requires NoDuplicates(labels) && |probs| == |labels| && IsDescendingRanking(probs, ranking)
    requires c < |probs| && probs[c] > 0.0
    requires forall d :: 0 <= d < |probs| && d != c ==> probs[d] <= 0.0
    ensures TopSelection(labels, probs, ranking) == [(labels[c], probs[c])]
  {
    assert PositiveClasses(probs) == {c};
    TopSelectionIsTop(labels, probs, ranking);
    var sel := TopSelection(labels, probs, ranking);
    assert |sel| == 1;
    var d :| 0 <= d < |probs| && ClassEntries(labels, probs)[d] == sel[0];
    assert d == c;
  }

  /** The `i`-th probability of one descending ranking is at most the `i`-th
      of another: otherwise `i + 1` classes would rank above position `i` in
      the second ranking. */
  lemma RankedValueNotGreater(probs: seq<real>, r1: seq<nat>, r2: seq<nat>, i: nat)
    requires IsDescendingRanking(probs, r1) && IsDescendingRanking(probs, r2) && i < |probs|
    ensures probs[r1[i]] <= probs[r2[i]]
  {
    var above := set j | 0 <= j < i + 1 :: r1[j];
    var before := set j | 0 <= j < i :: r2[j];
    DistinctPrefixCard(r1, i + 1);
    DistinctPrefixCard(r2, i);
    if probs[r1[i]] > probs[r2[i]] {
      forall a | a in above ensures a in before {
        var j :| 0 <= j < i + 1 && r1[j] == a;
        assert probs[a] >= probs[r1[i]];
        assert a in r2;
        var t :| 0 <= t < |r2| && r2[t] == a;
      }
      assert above <= before;
      SubsetCard(above, before);
      assert false;
    }
  }

  lemma {:induction false} SubsetCard(a: set<nat>, b: set<nat>)
    requires a <= b
    ensures |a| <= |b|
  {
    if a != {} {
      var x :| x in a;
      SubsetCard(a - {x}, b - {x});
    }
  }

  /** The order a sort gives to equal probabilities does not matter: any two
      descending rankings report the same number of crops with the same
      probabilities, and when no two classes tie they report the same result. */
  lemma TieOrderIrrelevant(labels: seq<string>, probs: seq<real>, r1: seq<nat>, r2: seq<nat>)
    requires |probs| == |labels| && IsDescendingRanking(probs, r1) && IsDescendingRanking(probs, r2)
    ensures |TopSelection(labels, probs, r1)| == |TopSelection(labels, probs, r2)|
    ensures forall i :: 0 <= i < |TopSelection(labels, probs, r1)| ==>
              TopSelection(labels, probs, r1)[i].1 == TopSelection(labels, probs, r2)[i].1
    ensures (forall c, d :: 0 <= c < d < |probs| && probs[c] > 0.0 ==> probs[c] != probs[d]) ==>
              TopSelection(labels, probs, r1) == TopSelection(labels, probs, r2)
  {
    var k1 := TopSelectionIsRankPrefix(labels, probs, r1);
    var k2 := TopSelectionIsRankPrefix(labels, probs, r2);
    forall i | 0 <= i < k1 ensures probs[r1[i]] == probs[r2[i]] {
      RankedValueNotGreater(probs, r1, r2, i);
      RankedValueNotGreater(probs, r2, r1, i);
    }
    if forall c, d :: 0 <= c < d < |probs| && probs[c] > 0.0 ==> probs[c] != probs[d] {
      forall i | 0 <= i < k1 ensures r1[i] == r2[i] {
        assert probs[r1[i]] == probs[r2[i]];
      }
    }
  }

  /** One step of the insertion loop: the dict of the first `i + 1` classes
      is the dict of the first `i` with the next class assigned when its
      probability is positive. */
  lemma SelectStep(labels: seq<string>, probs: seq<real>, idx: seq<nat>, i: nat)
    requires |probs| == |labels| && i < |idx|
    requires forall j :: 0 <= j < |idx| ==> idx[j] < |probs|
    ensures FromPairs(PositiveEntries(labels, probs, idx[..i + 1])) ==
            if probs[idx[i]] > 0.0
            then Insert(FromPairs(PositiveEntries(labels, probs, idx[..i])), labels[idx[i]], probs[idx[i]])
            else FromPairs(PositiveEntries(labels, probs, idx[..i]))
  {
    assert idx[..i + 1][..i] == idx[..i];
    if probs[idx[i]] > 0.0 {
      FromPairsSnoc(PositiveEntries(labels, probs, idx[..i]), labels[idx[i]], probs[idx[i]]);
    }
  }

  /** At the end of the loop nothing was overwritten: the dict is the selection. */
  lemma SelectDone(labels: seq<string>, probs: seq<real>, ranking: seq<nat>)
    requires NoDuplicates(labels) && |probs| == |labels| && IsDescendingRanking(probs, ranking)
    ensures var top := ranking[..Min(TopN, |ranking|)];
      FromPairs(PositiveEntries(labels, probs, top)) == TopSelection(labels, probs, ranking)
  {
    TopSelectionIsTop(labels, probs, ranking);
    FromDistinctPairs(TopSelection(labels, probs, ranking));
  }

  /** `top_crops` after the library calls: rank `probs`, keep the best `TopN`
      classes, decode them and insert the positive ones into a dict. */
  method SelectTop(labels: seq<string>, probs: seq<real>, ranking: seq<nat>) returns (finalTop: Dict<string, real>)
    requires NoDuplicates(labels) && |probs| == |labels| && IsDescendingRanking(probs, ranking)
    ensures finalTop == TopSelection(labels, probs, ranking)
    ensures IsTopSelection(labels, probs, finalTop)
  {
    var topIndices := ranking[..Min(TopN, |ranking|)];
    var topCrops := seq(|topIndices|, i requires 0 <= i < |topIndices| => labels[topIndices[i]]);
    var topProbs := seq(|topIndices|, i requires 0 <= i < |topIndices| => probs[topIndices[i]]);
    finalTop := [];
    for i := 0 to |topIndices|
      invariant finalTop == FromPairs(PositiveEntries(labels, probs, topIndices[..i]))
    {
      SelectStep(labels, probs, topIndices, i);
      if topProbs[i] > 0.0 {
        finalTop := Insert(finalTop, topCrops[i], topProbs[i]);
      }
    }
    assert topIndices[..|topIndices|] == topIndices;
    SelectDone(labels, probs, ranking);
    TopSelectionIsTop(labels, probs, ranking);
  }

  /** `top_crops(samples)`: only the probability row of the first sample is used. */
  method TopCrops(ctx: Trained, samples: seq<Sample>) returns (r: Result<Dict<string, real>, string>)
    requires Valid(ctx) && samples != []
    ensures ctx.proba(samples).Failure? ==> r == Failure(ctx.proba(samples).error)
    ensures ctx.proba(samples).Success? ==>
              var probs := ctx.proba(samples).value[0];
              r == Success(TopSelection(ctx.labels, probs, ctx.argsortDesc(probs)))
    ensures ctx.proba(samples).Success? ==> r.Success? && IsTopSelection(ctx.labels, ctx.proba(samples).value[0], r.value)
    ensures r.Success? ==> |r.value| <= TopN && forall i :: 0 <= i < |r.value| ==> 0.0 < r.value[i].1 <= 1.0
  {
    var rows := ctx.proba(samples);
    if rows.Failure? {
      return Failure(rows.error);
    }
    var probs := rows.value[0];
    var ranking := ctx.argsortDesc(probs);
    var finalTop := SelectTop(ctx.labels, probs, ranking);
    TopSelectionInUnitInterval(ctx.labels, probs, ranking);
    r := Success(finalTop);
  }
}

/**
 * One sort that meets the contract `Valid` asks of `np.argsort(p)[::-1]`, so
 * that the contract can be met: an insertion sort of the class indices by
 * non-increasing probability.
 */
module Argsort {
  import opened Wrappers
  import opened CropModel

  /** `s` lists indices of `probs` by non-increasing probability. */
  ghost predicate DescendingIndices(probs: seq<real>, s: seq<nat>) {
    && (forall i :: 0 <= i < |s| ==> s[i] < |probs|)
    && (forall i, j :: 0 <= i < j < |s| ==> probs[s[i]] >= probs[s[j]])
  }

  /** Inserts class `c` into `sorted` after every class of at least its probability. */
  function InsertByProb(probs: seq<real>, sorted: seq<nat>, c: nat): (r: seq<nat>)
    requires c < |probs| && forall i :: 0 <= i < |sorted| ==> sorted[i] < |probs|
    ensures |r| == |sorted| + 1
    ensures forall x :: x in r <==> x in sorted || x == c
  {
    if sorted == [] then [c]
    else if probs[sorted[0]] >= probs[c] then [sorted[0]] + InsertByProb(probs, sorted[1..], c)
    else [c] + sorted
  }

  /** Inserting keeps the order by probability. */
  lemma {:induction false} InsertByProbKeepsOrder(probs: seq<real>, sorted: seq<nat>, c: nat)
    requires c < |probs| && DescendingIndices(probs, sorted)
    ensures DescendingIndices(probs, InsertByProb(probs, sorted, c))
  {
    var r := InsertByProb(probs, sorted, c);
    if sorted == [] {
    } else if probs[sorted[0]] >= probs[c] {
      var rest := InsertByProb(probs, sorted[1..], c);
      InsertByProbKeepsOrder(probs, sorted[1..], c);
      assert r == [sorted[0]] + rest;
      forall j | 0 <= j < |rest| ensures probs[sorted[0]] >= probs[rest[j]] {
        assert rest[j] in rest;
        if rest[j] != c {
          var t :| 0 <= t < |sorted[1..]| && sorted[1..][t] == rest[j];
          assert sorted[t + 1] == rest[j];
        }
      }
    } else {
      assert r == [c] + sorted;
      assert forall i :: 0 <= i < |sorted| ==> probs[sorted[0]] >= probs[sorted[i]];
    }
  }

  /** Inserting a class not yet present keeps the indices free of repetitions. */
  lemma {:induction false} InsertByProbNoDuplicates(probs: seq<real>, sorted: seq<nat>, c: nat)
    requires c < |probs| && forall i :: 0 <= i < |sorted| ==> sorted[i] < |probs|
    ensures NoDuplicates(sorted) && c !in sorted ==> NoDuplicates(InsertByProb(probs, sorted, c))
  {
    if NoDuplicates(sorted) && c !in sorted && sorted != [] && probs[sorted[0]] >= probs[c] {
      var rest := InsertByProb(probs, sorted[1..], c);
      InsertByProbNoDuplicates(probs, sorted[1..], c);
      assert sorted[0] !in rest;
      assert forall j :: 0 <= j < |rest| ==> rest[j] in rest;
    }
  }

  /** Sorts the indices `idx` by non-increasing probability. */
  function SortByProb(probs: seq<real>, idx: seq<nat>): (r: seq<nat>)
    requires forall i :: 0 <= i < |idx| ==> idx[i] < |probs|
    ensures |r| == |idx|
    ensures forall x :: x in r <==> x in idx
    ensures DescendingIndices(probs, r)
    ensures NoDuplicates(idx) ==> NoDuplicates(r)
  {
    if idx == [] then []
    else
      var init := idx[..|idx| - 1];
      var c := idx[|idx| - 1];
      assert idx == init + [c];
      assert NoDuplicates(idx) ==> NoDuplicates(init) && c !in init;
      InsertByProbKeepsOrder(probs, SortByProb(probs, init), c);
      InsertByProbNoDuplicates(probs, SortByProb(probs, init), c);
      InsertByProb(probs, SortByProb(probs, init), c)
  }

  /** The class indices of `probs` by non-increasing probability. */
  function ArgsortDescending(probs: seq<real>): (ranking: seq<nat>)
    ensures IsDescendingRanking(probs, ranking)
  {
    var all := seq(|probs|, i requires 0 <= i < |probs| => i as nat);
    assert forall c :: 0 <= c < |probs| ==> c in all by {
      forall c | 0 <= c < |probs| ensures c in all {
        assert all[c] == c;
      }
    }
    SortByProb(probs, all)
  }

  /** A classifier stand-in that rejects batches holding `None` and reports no
      probability mass otherwise. */
  function RejectingClassifier(classes: nat, batch: seq<Sample>): Result<seq<seq<real>>, string> {
    if None in batch then Failure("could not convert the sample to a numeric array")
    else Success(seq(|batch|, _ => seq(classes, _ => 0.0)))
  }

  /** Every list of distinct crop names, with that classifier and this sort,
      is a valid trained context: `Valid` can be met. */
  lemma ValidContextExists(labels: seq<string>)
    requires NoDuplicates(labels)
    ensures Valid(Trained(labels, batch => RejectingClassifier(|labels|, batch), ArgsortDescending))
  {
  }
}
