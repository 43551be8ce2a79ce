/** `ocr_formulas`: every region whose page was rendered is cropped and labelled with its
    position in the region list, the labelled images are cut into fixed-size batches, each
    batch's answer is parsed into a map from region position to LaTeX, the maps are merged and
    the LaTeX is written back into the regions. The model's answers are inputs: `answers[i]` is
    the text returned for batch `i`, or None when that request failed. */
module OcrBatches {
  import opened Results
  import opened Regions
  import opened Crop
  import opened FormulaOcr
  import Detection

  /** Why `ocr_formulas` raises: the image library refuses a crop, or `range` refuses a batch
      size of 0. */
  datatype OcrError = CropFailed(error: CropError) | ZeroBatchSize

  // ---------------------------------------------------------------------------------------
  // Cropping
  // ---------------------------------------------------------------------------------------

  /** The padded crop of a region from its rendered page. */
  function CropOf(r: Region, images: map<int, Bitmap>): Result<Padded, CropError>
    requires r.page in images
  {
    CropFormulaImage(images[r.page], r.box, RenderDpi)
  }

  /** The labelled crops of `regions[from..]`, skipping regions whose page has no image; the
      first crop that fails ends the loop with its error. */
  function IndexedFrom(regions: seq<Region>, images: map<int, Bitmap>, from: nat): (r: Result<seq<Item>, CropError>)
    requires from <= |regions|
    ensures r.Ok? ==> forall k :: 0 <= k < |r.value| ==> from <= r.value[k].index < |regions|
    ensures r.Ok? ==> Increasing(r.value)
    decreases |regions| - from
  {
    if from == |regions| then Ok([])
    else
      var rest := IndexedFrom(regions, images, from + 1);
      if regions[from].page !in images then rest
      else match CropOf(regions[from], images)
        case Err(e) => Err(e)
        case Ok(img) => if rest.Err? then rest else Ok([Item(from, img)] + rest.value)
  }

  /** The list of labelled crops `ocr_formulas` builds before batching. */
  function IndexedImages(regions: seq<Region>, images: map<int, Bitmap>): (r: Result<seq<Item>, CropError>)
    ensures r.Ok? ==> forall k :: 0 <= k < |r.value| ==> r.value[k].index < |regions|
    ensures r.Ok? ==> Increasing(r.value)
  {
    IndexedFrom(regions, images, 0)
  }

  /** Every labelled image is its region's crop, and that region's page was rendered. */
  lemma {:induction false} IndexedFromSound(regions: seq<Region>, images: map<int, Bitmap>, from: nat, k: nat)
    requires from <= |regions|
    requires IndexedFrom(regions, images, from).Ok? && k < |IndexedFrom(regions, images, from).value|
    ensures var it := IndexedFrom(regions, images, from).value[k];
            it.index < |regions| && regions[it.index].page in images &&
            CropOf(regions[it.index], images) == Ok(it.image)
    decreases |regions| - from
  {
    var rest := IndexedFrom(regions, images, from + 1);
    if regions[from].page !in images {
      IndexedFromSound(regions, images, from + 1, k);
    } else if k > 0 {
      IndexedFromSound(regions, images, from + 1, k - 1);
    }
  }

  /** Every region whose page was rendered gets a labelled image. */
  lemma {:induction false} IndexedFromCovers(regions: seq<Region>, images: map<int, Bitmap>, from: nat, j: nat)
    requires from <= j < |regions| && regions[j].page in images
    requires IndexedFrom(regions, images, from).Ok?
    ensures exists k :: 0 <= k < |IndexedFrom(regions, images, from).value| &&
                        IndexedFrom(regions, images, from).value[k].index == j
    decreases |regions| - from
  {
    var items := IndexedFrom(regions, images, from).value;
    if j == from {
      assert items[0].index == j;
    } else {
      IndexedFromCovers(regions, images, from + 1, j);
      var rest := IndexedFrom(regions, images, from + 1).value;
      var k :| 0 <= k < |rest| && rest[k].index == j;
      if regions[from].page in images {
        assert items[k + 1] == rest[k];
      } else {
        assert items[k] == rest[k];
      }
    }
  }

  /** The crops fail exactly when some region on a rendered page cannot be cropped, and the
      error reported is that of the first such region. */
  lemma {:induction false} IndexedFromFails(regions: seq<Region>, images: map<int, Bitmap>, from: nat)
    requires from <= |regions|
    ensures IndexedFrom(regions, images, from).Err? <==>
            exists j :: from <= j < |regions| && regions[j].page in images && CropOf(regions[j], images).Err?
    ensures IndexedFrom(regions, images, from).Err? ==>
            exists j :: from <= j < |regions| && regions[j].page in images &&
                        CropOf(regions[j], images).Err? &&
                        IndexedFrom(regions, images, from).error == CropOf(regions[j], images).error &&
                        forall i :: from <= i < j && regions[i].page in images ==> CropOf(regions[i], images).Ok?
    decreases |regions| - from
  {
    if from < |regions| {
      IndexedFromFails(regions, images, from + 1);
    }
  }

  // ---------------------------------------------------------------------------------------
  // Batching
  // ---------------------------------------------------------------------------------------

  /** The slices `xs[start : start + size]` for `start` in `range(start, |xs|, size)`. */
  function Chunks<T>(xs: seq<T>, size: nat, start: nat): (r: seq<seq<T>>)
    requires size > 0
    ensures forall k :: 0 <= k < |r| ==> 0 < |r[k]| <= size
    decreases |xs| - start
  {
    if start >= |xs| then [] else [xs[start..MinInt(start + size, |xs|)]] + Chunks(xs, size, start + size)
  }

  /** The batches concatenate back to the list they were cut from. */
  lemma {:induction false} ChunksFlatten<T>(xs: seq<T>, size: nat, start: nat)
    requires size > 0 && start <= |xs|
    ensures Detection.Flatten(Chunks(xs, size, start)) == xs[start..]
    decreases |xs| - start
  {
    if start < |xs| {
      var m := MinInt(start + size, |xs|);
      ChunksFlatten(xs, size, m);
      assert Chunks(xs, size, start + size) == Chunks(xs, size, m) by {
        if start + size > |xs| {
          assert Chunks(xs, size, start + size) == [];
        }
      }
      Detection.FlattenCons(Chunks(xs, size, start));
      assert xs[start..m] + xs[m..] == xs[start..];
    } else {
      assert xs[start..] == [];
    }
  }

  /** Batch `i` is the slice of `size` items at `start + i * size`, cut short at the end. */
  lemma {:induction false} ChunkAt<T>(xs: seq<T>, size: nat, start: nat, i: nat)
    requires size > 0 && i < |Chunks(xs, size, start)|
    ensures start + i * size < |xs|
    ensures Chunks(xs, size, start)[i] == xs[start + i * size..MinInt(start + (i + 1) * size, |xs|)]
    decreases |xs| - start
  {
    if i > 0 {
      ChunkAt(xs, size, start + size, i - 1);
      assert Chunks(xs, size, start)[i] == Chunks(xs, size, start + size)[i - 1];
      MulStep(i, size);
      MulStep(i + 1, size);
    }
  }

  lemma MulStep(i: int, size: int)
    ensures (i - 1) * size + size == i * size
  {
  }

  /** There are as many batches as `size`-sized pieces are needed to cover the list: every
      batch but the last is full. */
  lemma {:induction false} ChunksCountBounds<T>(xs: seq<T>, size: nat, start: nat)
    requires size > 0 && start <= |xs|
    ensures var c := |Chunks(xs, size, start)|;
            (c - 1) * size < |xs| - start <= c * size
            || (c == 0 && start == |xs|)
    decreases |xs| - start
  {
    if start < |xs| {
      var c := |Chunks(xs, size, start)|;
      if start + size < |xs| {
        ChunksCountBounds(xs, size, start + size);
        assert (c - 1) * size == (c - 2) * size + size;
        assert c * size == (c - 1) * size + size;
      } else {
        assert Chunks(xs, size, start + size) == [];
      }
    }
  }

  /** The count bounds pin the count down to ⌈n / size⌉. */
  lemma CeilDiv(n: nat, size: nat, c: nat)
    requires size > 0 && (c - 1) * size < n <= c * size
    ensures c == (n + size - 1) / size
  {
    var q := (n + size - 1) / size;
    assert q * size <= n + size - 1 < q * size + size;
    if q < c {
      assert q <= c - 1;
      MulMono(q, c - 1, size);
    } else if q > c {
      assert c + 1 <= q;
      MulMono(c + 1, q, size);
    }
  }

  lemma MulMono(a: int, b: int, m: nat)
    requires a <= b
    ensures a * m <= b * m
  {
  }

  /** `range(0, N, size)` yields ⌈N / size⌉ starts. */
  lemma ChunksCount<T>(xs: seq<T>, size: nat)
    requires size > 0
    ensures |Chunks(xs, size, 0)| == (|xs| + size - 1) / size
  {
    ChunksCountBounds(xs, size, 0);
    if xs != [] {
      CeilDiv(|xs|, size, |Chunks(xs, size, 0)|);
    }
  }

  /** The batches of `ocr_formulas`: `range` refuses a step of 0 and yields nothing for a
      negative step. */
  function MakeBatches(items: seq<Item>, size: int): (r: Result<seq<seq<Item>>, OcrError>)
    ensures r.Err? <==> size == 0
    ensures r.Err? ==> r.error == ZeroBatchSize
    ensures size < 0 ==> r == Ok([])
  {
    if size == 0 then Err(ZeroBatchSize)
    else if size < 0 then Ok([])
    else Ok(Chunks(items, size, 0))
  }

  /** With a positive size the batches are consecutive slices covering the items in order,
      ⌈N / size⌉ of them, none empty and none longer than `size`. */
  lemma BatchesSplitItems(items: seq<Item>, size: int, i: nat)
    requires size > 0 && MakeBatches(items, size).Ok?
    ensures Detection.Flatten(MakeBatches(items, size).value) == items
    ensures |MakeBatches(items, size).value| == (|items| + size - 1) / size
    ensures i < |MakeBatches(items, size).value| ==>
              i * size < |items| &&
              MakeBatches(items, size).value[i] == items[i * size..MinInt((i + 1) * size, |items|)]
  {
    ChunksFlatten(items, size, 0);
    assert items[0..] == items;
    ChunksCount(items, size);
    if i < |MakeBatches(items, size).value| {
      ChunkAt(items, size, 0, i);
    }
  }

  // ---------------------------------------------------------------------------------------
  // Answers and their merge
  // ---------------------------------------------------------------------------------------

  /** The answer to batch `i`; a missing entry is a failed request. */
  function AnswerAt(answers: seq<Option<string>>, i: nat): Option<string>
  {
    if i < |answers| then answers[i] else None
  }

  /** A failed batch contributes nothing; an answered one contributes its parse. */
  function BatchResult(batch: seq<Item>, answer: Option<string>): (r: map<nat, string>)
    ensures r.Keys <= BatchIndices(batch)
    ensures answer.None? ==> r == map[]
  {
    if answer.Some? then ParseResponse(answer.value, batch) else map[]
  }

  function BatchResults(batches: seq<seq<Item>>, answers: seq<Option<string>>): (r: seq<map<nat, string>>)
    ensures |r| == |batches|
    ensures forall i :: 0 <= i < |r| ==> r[i] == BatchResult(batches[i], AnswerAt(answers, i))
  {
    seq(|batches|, i requires 0 <= i < |batches| => BatchResult(batches[i], AnswerAt(answers, i)))
  }

  /** `all_results.update(...)` over the batch results, in the order given. */
  function MergeAll(rs: seq<map<nat, string>>): (r: map<nat, string>)
    ensures forall i :: 0 <= i < |rs| ==> rs[i].Keys <= r.Keys
    decreases |rs|
  {
    if rs == [] then map[] else MergeAll(rs[..|rs| - 1]) + rs[|rs| - 1]
  }

  predicate PairwiseDisjoint(rs: seq<map<nat, string>>) {
    forall i, j :: 0 <= i < j < |rs| ==> rs[i].Keys !! rs[j].Keys
  }

  /** The merged keys are the keys of the parts. */
  lemma {:induction false} MergeKeys(rs: seq<map<nat, string>>)
    ensures forall k :: k in MergeAll(rs) <==> exists i :: 0 <= i < |rs| && k in rs[i]
    decreases |rs|
  {
    if rs != [] {
      var init := rs[..|rs| - 1];
      MergeKeys(init);
      forall k | k in MergeAll(rs) ensures exists i :: 0 <= i < |rs| && k in rs[i] {
        if k !in rs[|rs| - 1] {
          assert k in MergeAll(init);
          var i :| 0 <= i < |init| && k in init[i];
          assert rs[i] == init[i];
        }
      }
      forall k, i | 0 <= i < |rs| && k in rs[i] ensures k in MergeAll(rs) {
        if i < |rs| - 1 {
          assert init[i] == rs[i];
        }
      }
    }
  }

  /** Every merged value comes from the last part that holds its key, in any order. */
  lemma {:induction false} MergeLast(rs: seq<map<nat, string>>, k: nat)
    requires k in MergeAll(rs)
    ensures exists i :: 0 <= i < |rs| && k in rs[i] && MergeAll(rs)[k] == rs[i][k]
    decreases |rs|
  {
    var init := rs[..|rs| - 1];
    if k !in rs[|rs| - 1] {
      MergeLast(init, k);
      var i :| 0 <= i < |init| && k in init[i] && MergeAll(init)[k] == init[i][k];
      assert rs[i] == init[i];
    }
  }

  /** With disjoint parts, every part's entries survive the merge. */
  lemma {:induction false} MergeValue(rs: seq<map<nat, string>>, i: nat, k: nat)
    requires PairwiseDisjoint(rs) && i < |rs| && k in rs[i]
    ensures k in MergeAll(rs) && MergeAll(rs)[k] == rs[i][k]
    decreases |rs|
  {
    var init := rs[..|rs| - 1];
    if i < |rs| - 1 {
      assert k !in rs[|rs| - 1];
      assert init[i] == rs[i];
      MergeValue(init, i, k);
    }
  }

  /** Batches finishing in any order give the same merged map, since their keys are disjoint. */
  lemma MergeOrderFree(rs: seq<map<nat, string>>, ss: seq<map<nat, string>>)
    requires multiset(rs) == multiset(ss) && PairwiseDisjoint(rs)
    ensures MergeAll(rs) == MergeAll(ss)
  {
    MergeKeys(rs);
    MergeKeys(ss);
    forall k | k in MergeAll(rs) ensures k in MergeAll(ss) && MergeAll(ss)[k] == MergeAll(rs)[k] {
      var i :| 0 <= i < |rs| && k in rs[i];
      assert rs[i] in multiset(ss);
      var j :| 0 <= j < |ss| && ss[j] == rs[i];
      MergeLast(ss, k);
      var j' :| 0 <= j' < |ss| && k in ss[j'] && MergeAll(ss)[k] == ss[j'][k];
      assert ss[j'] in multiset(rs);
      var i' :| 0 <= i' < |rs| && rs[i'] == ss[j'];
      MergeValue(rs, i', k);
    }
    forall k | k in MergeAll(ss) ensures k in MergeAll(rs) {
      var j :| 0 <= j < |ss| && k in ss[j];
      assert ss[j] in multiset(rs);
    }
  }

  /** Slices of an increasing list at disjoint positions hold disjoint region positions. */
  lemma SlicesDisjoint(items: seq<Item>, a: nat, b: nat, c: nat, d: nat)
    requires Increasing(items) && a <= b <= c <= d <= |items|
    ensures BatchIndices(items[a..b]) !! BatchIndices(items[c..d])
  {
    forall p, q | 0 <= p < b - a && 0 <= q < d - c
      ensures items[a..b][p].index != items[c..d][q].index
    {
      assert items[a..b][p] == items[a + p] && items[c..d][q] == items[c + q];
    }
  }

  /** The results of different batches of one increasing list never share a key. */
  lemma BatchResultsDisjoint(items: seq<Item>, size: nat, answers: seq<Option<string>>)
    requires Increasing(items) && size > 0
    ensures PairwiseDisjoint(BatchResults(Chunks(items, size, 0), answers))
  {
    var batches := Chunks(items, size, 0);
    var rs := BatchResults(batches, answers);
    forall i, j | 0 <= i < j < |rs| ensures rs[i].Keys !! rs[j].Keys {
      ChunksDisjoint(items, size, i, j);
    }
  }

  lemma ChunksDisjoint(items: seq<Item>, size: nat, i: nat, j: nat)
    requires Increasing(items) && size > 0 && i < j < |Chunks(items, size, 0)|
    ensures BatchIndices(Chunks(items, size, 0)[i]) !! BatchIndices(Chunks(items, size, 0)[j])
  {
    var cs := Chunks(items, size, 0);
    ChunkAt(items, size, 0, i);
    ChunkAt(items, size, 0, j);
    BatchBoundsOrdered(i, j, size, |items|);
    DisjointSlices(items, cs[i], cs[j], 0 + i * size, MinInt(0 + (i + 1) * size, |items|),
                   0 + j * size, MinInt(0 + (j + 1) * size, |items|));
  }

  /** The bounds of batch `i` come before those of a later batch `j`. */
  lemma BatchBoundsOrdered(i: nat, j: nat, size: nat, n: nat)
    requires i < j && size > 0 && j * size < n
    ensures 0 <= i * size <= MinInt((i + 1) * size, n) <= j * size <= MinInt((j + 1) * size, n) <= n
  {
    MulMono(i, i + 1, size);
    MulMono(i + 1, j, size);
    MulMono(j, j + 1, size);
  }

  lemma DisjointSlices(items: seq<Item>, x: seq<Item>, y: seq<Item>, a: int, b: int, c: int, d: int)
    requires Increasing(items) && 0 <= a <= b <= c <= d <= |items|
    requires x == items[a..b] && y == items[c..d]
    ensures BatchIndices(x) !! BatchIndices(y)
  {
    SlicesDisjoint(items, a, b, c, d);
  }

  /** Whatever the batch size, the merged map only names positions that were labelled. */
  lemma BatchesBounded(items: seq<Item>, size: int, answers: seq<Option<string>>, n: nat)
    requires MakeBatches(items, size).Ok? && forall p :: 0 <= p < |items| ==> items[p].index < n
    ensures forall k :: k in MergeAll(BatchResults(MakeBatches(items, size).value, answers)) ==> k < n
  {
    if size > 0 {
      ResultsBounded(items, size, answers, n);
    } else {
      assert BatchResults([], answers) == [];
    }
  }

  /** The merged map only names positions that were labelled. */
  lemma ResultsBounded(items: seq<Item>, size: nat, answers: seq<Option<string>>, n: nat)
    requires size > 0 && forall p :: 0 <= p < |items| ==> items[p].index < n
    ensures forall k :: k in MergeAll(BatchResults(Chunks(items, size, 0), answers)) ==> k < n
  {
    forall k | k in MergeAll(BatchResults(Chunks(items, size, 0), answers)) ensures k < n {
      KeyBounded(items, size, answers, n, k);
    }
  }

  lemma KeyBounded(items: seq<Item>, size: nat, answers: seq<Option<string>>, n: nat, k: nat)
    requires size > 0 && forall p :: 0 <= p < |items| ==> items[p].index < n
    requires k in MergeAll(BatchResults(Chunks(items, size, 0), answers))
    ensures k < n
  {
    var p := KeyLabelled(items, size, answers, k);
  }

  /** Every merged key is the label of one of the items. */
  lemma KeyLabelled(items: seq<Item>, size: nat, answers: seq<Option<string>>, k: nat) returns (p: nat)
    requires size > 0
    requires k in MergeAll(BatchResults(Chunks(items, size, 0), answers))
    ensures p < |items| && items[p].index == k
  {
    var batches := Chunks(items, size, 0);
    var i := MergedFrom(batches, answers, k);
    var t := LabelInBatch(batches[i], k);
    p := ItemOfChunk(items, size, i, t);
  }

  /** A merged key comes from some batch's result, and so is a label of that batch. */
  lemma MergedFrom(batches: seq<seq<Item>>, answers: seq<Option<string>>, k: nat) returns (i: nat)
    requires k in MergeAll(BatchResults(batches, answers))
    ensures i < |batches| && k in BatchIndices(batches[i])
  {
    var rs := BatchResults(batches, answers);
    MergeKeys(rs);
    i :| 0 <= i < |rs| && k in rs[i];
  }

  lemma LabelInBatch(batch: seq<Item>, k: nat) returns (t: nat)
    requires k in BatchIndices(batch)
    ensures t < |batch| && batch[t].index == k
  {
    t :| 0 <= t < |batch| && batch[t].index == k;
  }

  lemma ItemOfChunk(items: seq<Item>, size: nat, i: nat, t: nat) returns (p: nat)
    requires size > 0 && i < |Chunks(items, size, 0)| && t < |Chunks(items, size, 0)[i]|
    ensures p < |items| && Chunks(items, size, 0)[i][t] == items[p]
  {
    ChunkAt(items, size, 0, i);
    p := i * size + t;
  }

  // ---------------------------------------------------------------------------------------
  // Write-back and the whole operation
  // ---------------------------------------------------------------------------------------

  /** `regions[idx].latex = latex` for every merged entry. */
  function WriteBack(regions: seq<Region>, results: map<nat, string>): (r: seq<Region>)
    requires forall k :: k in results ==> k < |regions|
    ensures |r| == |regions|
    ensures forall j :: 0 <= j < |r| ==> r[j].(latex := regions[j].latex) == regions[j]
    ensures forall j :: 0 <= j < |r| && j !in results ==> r[j] == regions[j]
    ensures forall k :: k in results ==> r[k].latex == results[k]
  {
    seq(|regions|, j requires 0 <= j < |regions| =>
      if j in results then regions[j].(latex := results[j]) else regions[j])
  }

  /** `ocr_formulas`: nothing happens without regions or without a key; otherwise crop, batch,
      merge the parsed answers and write them back. */
  function OcrFormulas(regions: seq<Region>, images: map<int, Bitmap>, apiKey: string,
                       batchSize: int, answers: seq<Option<string>>): (r: Result<seq<Region>, OcrError>)
    ensures regions == [] || apiKey == [] ==> r == Ok(regions)
    ensures r.Ok? ==> |r.value| == |regions|
    ensures r.Ok? ==> forall j :: 0 <= j < |regions| ==> r.value[j].(latex := regions[j].latex) == regions[j]
  {
    if regions == [] || apiKey == [] then Ok(regions)
    else match IndexedImages(regions, images)
      case Err(e) => Err(CropFailed(e))
      case Ok(items) => match MakeBatches(items, batchSize)
        case Err(e) => Err(e)
        case Ok(batches) =>
          BatchesBounded(items, batchSize, answers, |regions|);
          Ok(WriteBack(regions, MergeAll(BatchResults(batches, answers))))
  }

  /** The crops fail exactly when some region on a rendered page cannot be cropped, or else
      when the batch size is 0; a failing crop is reported even when the size is 0 too. */
  lemma OcrFailsWhen(regions: seq<Region>, images: map<int, Bitmap>, apiKey: string,
                     batchSize: int, answers: seq<Option<string>>)
    ensures var r := OcrFormulas(regions, images, apiKey, batchSize, answers);
            var cropFails := exists j :: 0 <= j < |regions| && regions[j].page in images && CropOf(regions[j], images).Err?;
            (r.Err? <==> regions != [] && apiKey != [] && (cropFails || batchSize == 0)) &&
            (r.Err? && cropFails ==> r.error.CropFailed?)
  {
    IndexedFromFails(regions, images, 0);
  }

  /** A region whose page has no image keeps its LaTeX. */
  lemma OcrSkipsUnrendered(regions: seq<Region>, images: map<int, Bitmap>, apiKey: string,
                           batchSize: int, answers: seq<Option<string>>, j: nat)
    requires j < |regions| && regions[j].page !in images
    requires OcrFormulas(regions, images, apiKey, batchSize, answers).Ok?
    ensures OcrFormulas(regions, images, apiKey, batchSize, answers).value[j] == regions[j]
  {
    if regions != [] && apiKey != [] && batchSize > 0 {
      var items := IndexedImages(regions, images).value;
      if j in MergeAll(BatchResults(Chunks(items, batchSize, 0), answers)) {
        var p := KeyLabelled(items, batchSize, answers, j);
        IndexedFromSound(regions, images, 0, p);
        assert false;
      }
    }
  }

  /** Every entry of a batch's parsed answer lands in the region it names. */
  lemma OcrWritesAnswer(regions: seq<Region>, images: map<int, Bitmap>, apiKey: string,
                        batchSize: int, answers: seq<Option<string>>,
                        items: seq<Item>, batches: seq<seq<Item>>, i: nat, k: nat)
    requires regions != [] && apiKey != []
    requires IndexedImages(regions, images) == Ok(items) && MakeBatches(items, batchSize) == Ok(batches)
    requires i < |batches| && AnswerAt(answers, i).Some?
    requires k in ParseResponse(AnswerAt(answers, i).value, batches[i])
    ensures var r := OcrFormulas(regions, images, apiKey, batchSize, answers);
            r.Ok? && k < |r.value| && r.value[k].latex == ParseResponse(AnswerAt(answers, i).value, batches[i])[k]
  {
    var merged := MergeAll(BatchResults(batches, answers));
    assert k in merged && merged[k] == ParseResponse(AnswerAt(answers, i).value, batches[i])[k] by {
      BatchResultsDisjoint(items, batchSize, answers);
      MergeValue(BatchResults(batches, answers), i, k);
    }
    OcrWritesMerged(regions, images, apiKey, batchSize, answers, items, batches);
  }

  /** Past the guard and the failures, the result is the merged answers written back. */
  lemma OcrWritesMerged(regions: seq<Region>, images: map<int, Bitmap>, apiKey: string,
                        batchSize: int, answers: seq<Option<string>>,
                        items: seq<Item>, batches: seq<seq<Item>>)
    requires regions != [] && apiKey != []
    requires IndexedImages(regions, images) == Ok(items) && MakeBatches(items, batchSize) == Ok(batches)
    ensures var merged := MergeAll(BatchResults(batches, answers));
            (forall k :: k in merged ==> k < |regions|) &&
            OcrFormulas(regions, images, apiKey, batchSize, answers) == Ok(WriteBack(regions, merged))
  {
    BatchesBounded(items, batchSize, answers, |regions|);
  }

  /** Only a region named in some answered batch's parse can change. */
  lemma OcrChangesOnlyAnswered(regions: seq<Region>, images: map<int, Bitmap>, apiKey: string,
                               batchSize: int, answers: seq<Option<string>>,
                               items: seq<Item>, batches: seq<seq<Item>>, j: nat)
    requires regions != [] && apiKey != [] && j < |regions|
    requires IndexedImages(regions, images) == Ok(items) && MakeBatches(items, batchSize) == Ok(batches)
    requires OcrFormulas(regions, images, apiKey, batchSize, answers).value[j] != regions[j]
    ensures exists i :: 0 <= i < |batches| && AnswerAt(answers, i).Some? &&
                        j in ParseResponse(AnswerAt(answers, i).value, batches[i])
  {
    var rs := BatchResults(batches, answers);
    MergeKeys(rs);
    var i :| 0 <= i < |rs| && j in rs[i];
  }

  /** Batch results merged in any completion order give the same map. */
  lemma AnswersInAnyOrder(items: seq<Item>, batchSize: int, answers: seq<Option<string>>,
                          batches: seq<seq<Item>>, finished: seq<map<nat, string>>)
    requires Increasing(items) && MakeBatches(items, batchSize) == Ok(batches)
    requires multiset(finished) == multiset(BatchResults(batches, answers))
    ensures MergeAll(finished) == MergeAll(BatchResults(batches, answers))
  {
    if batchSize > 0 {
      BatchResultsDisjoint(items, batchSize, answers);
    }
    MergeOrderFree(BatchResults(batches, answers), finished);
  }

  /** When every request fails the regions come back as they were. */
  lemma OcrAllFailed(regions: seq<Region>, images: map<int, Bitmap>, apiKey: string,
                     batchSize: int, answers: seq<Option<string>>)
    requires forall i :: 0 <= i < |answers| ==> answers[i].None?
    requires OcrFormulas(regions, images, apiKey, batchSize, answers).Ok?
    ensures OcrFormulas(regions, images, apiKey, batchSize, answers).value == regions
  {
    if regions != [] && apiKey != [] {
      var items := IndexedImages(regions, images).value;
      var rs := BatchResults(MakeBatches(items, batchSize).value, answers);
      MergeKeys(rs);
      assert MergeAll(rs) == map[];
    }
  }
}
