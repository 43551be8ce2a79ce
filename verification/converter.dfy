/** `converter.py`: the conversion error and its HTTP status, the markdown of the plain
    extraction, and the hybrid pipeline that runs formula OCR over it and falls back to the
    plain result on any failure. Text extraction, page rendering and the vision model are
    inputs: the per-page markdown (None when extraction fails), the page layouts, a renderer
    from page number to bitmap, and the answers per batch. */
module Converter {
  import opened Results
  import opened Text
  import opened Regions
  import opened Crop
  import opened Merge
  import opened Detection
  import opened OcrBatches
  import FormulaOcr
  import Patch

  // ---------------------------------------------------------------------------------------
  // Errors
  // ---------------------------------------------------------------------------------------

  /** A failed conversion, with the HTTP status the service answers with. */
  datatype ConversionError = ConversionError(message: string, status: int)

  /** HTTP 400: the request carried a document that cannot be converted. */
  predicate IsClientError(e: ConversionError) { 400 <= e.status < 500 }

  /** HTTP 504: the conversion did not finish in time. */
  predicate IsGatewayTimeout(e: ConversionError) { e.status == 504 }

  /** `ConversionError(message)` with its default status. */
  function Failure(message: string): (e: ConversionError)
    ensures e.message == message && IsClientError(e) && !IsGatewayTimeout(e)
  {
    ConversionError(message, 400)
  }

  /** The default message of a timeout. */
  const TimeoutMessage: string := "Conversion timed out."

  /** `ConversionTimeoutError(message)`: a conversion error that always carries 504. */
  function TimeoutWith(message: string): (e: ConversionError)
    ensures e.message == message && IsGatewayTimeout(e) && !IsClientError(e)
  {
    ConversionError(message, 504)
  }

  /** `ConversionTimeoutError()`, with its default message. */
  function Timeout(): (e: ConversionError)
    ensures e.message == TimeoutMessage && IsGatewayTimeout(e)
  {
    TimeoutWith(TimeoutMessage)
  }

  /** A failure and a timeout are never confused, whatever their messages. */
  lemma StatusesDiffer(m1: string, m2: string)
    ensures Failure(m1) != TimeoutWith(m2)
    ensures Failure(m1).status == 400 && TimeoutWith(m2).status == 504
  {
  }

  // ---------------------------------------------------------------------------------------
  // The plain extraction
  // ---------------------------------------------------------------------------------------

  /** An image written by the extractor, by file name. */
  datatype ImageFile = ImageFile(name: string, data: seq<bv8>)

  /** `ConversionResult`. */
  datatype ConversionResult = ConversionResult(markdown: string, images: seq<ImageFile>, pageCount: nat)

  /** `_run_pymupdf(..., page_chunks=True)`: the result with the per-page markdown kept
      alongside for formula OCR. */
  datatype PlainRun = PlainRun(result: ConversionResult, pageMarkdowns: seq<string>)

  /** The directory the extractor writes images to. */
  const ImageDir: string := "/tmp/pymupdf_images"

  /** The absolute path of an extracted image as the markdown first mentions it. */
  function ImagePath(name: string): (p: string)
    ensures |p| > |name|
  {
    ImageDir + "/" + name
  }

  function Names(images: seq<ImageFile>): (r: seq<string>)
    ensures |r| == |images|
  {
    seq(|images|, i requires 0 <= i < |images| => images[i].name)
  }

  /** For each image in turn, every `/tmp/pymupdf_images/<name>` becomes `<name>`; the source
      writes the path twice (once built from the directory, once as a literal), and both
      spell the same string, so each name gets two passes of `replace`. */
  function NormalizeImagePaths(md: string, names: seq<string>): string
    decreases |names|
  {
    if names == [] then md
    else
      var p := ImagePath(names[0]);
      NormalizeImagePaths(ReplaceAll(ReplaceAll(md, p, names[0]), p, names[0]), names[1..])
  }

  /** `md` mentions none of the images by their absolute path. */
  predicate NoImagePaths(md: string, names: seq<string>) {
    forall k, i :: 0 <= k < |names| && 0 <= i <= |md| ==> !OccursAt(md, ImagePath(names[k]), i)
  }

  /** Markdown that mentions no image by its absolute path is left as it is. */
  lemma {:induction false} NormalizeWithoutPaths(md: string, names: seq<string>)
    requires NoImagePaths(md, names)
    ensures NormalizeImagePaths(md, names) == md
    decreases |names|
  {
    if names != [] {
      var p := ImagePath(names[0]);
      assert forall i :: 0 <= i <= |md| ==> !OccursAt(md, p, i) by {
        forall i | 0 <= i <= |md| ensures !OccursAt(md, p, i) {
          assert ImagePath(names[0]) == p;
        }
      }
      ReplaceAllAbsent(md, p, names[0]);
      ReplaceAllAbsent(md, p, names[0]);
      forall k, i | 0 <= k < |names[1..]| && 0 <= i <= |md| ensures !OccursAt(md, ImagePath(names[1..][k]), i) {
        assert names[1..][k] == names[k + 1];
      }
      NormalizeWithoutPaths(md, names[1..]);
    }
  }

  /** An image mentioned once, by its absolute path, between text that mentions no image path
      is rewritten to its bare name. */
  lemma NormalizeOneImage(pre: string, name: string, post: string)
    requires NoImagePaths(post, [name])
    requires forall i :: 0 <= i < |pre| ==> !OccursAt(pre + ImagePath(name) + post, ImagePath(name), i)
    requires NoImagePaths(pre + name + post, [name])
    ensures NormalizeImagePaths(pre + ImagePath(name) + post, [name]) == pre + name + post
  {
    var p := ImagePath(name);
    assert forall i :: 0 <= i <= |post| ==> !OccursAt(post, p, i) by {
      forall i | 0 <= i <= |post| ensures !OccursAt(post, p, i) {
        assert [name][0] == name;
      }
    }
    ReplaceAllFirst(pre, p, post, name);
    ReplaceAllAbsent(post, p, name);
    assert forall i :: 0 <= i <= |pre + name + post| ==> !OccursAt(pre + name + post, p, i) by {
      forall i | 0 <= i <= |pre + name + post| ensures !OccursAt(pre + name + post, p, i) {
        assert [name][0] == name;
      }
    }
    ReplaceAllAbsent(pre + name + post, p, name);
    assert [name][1..] == [];
  }

  /** The page-chunk branch of `_run_pymupdf`: extraction failure is a client error; otherwise
      the pages are joined by newlines and the image paths rewritten. */
  function RunPymupdf(chunks: Option<seq<string>>, pageCount: nat, images: seq<ImageFile>): (r: Result<PlainRun, ConversionError>)
    ensures r.Err? <==> chunks.None?
    ensures r.Err? ==> IsClientError(r.error)
    ensures r.Ok? ==> r.value.pageMarkdowns == chunks.value && r.value.result.images == images
    ensures r.Ok? ==> r.value.result.pageCount == pageCount
  {
    if chunks.None? then Err(Failure("Could not parse PDF."))
    else
      var md := NormalizeImagePaths(Join(chunks.value, "\n"), Names(images));
      Ok(PlainRun(ConversionResult(md, images, pageCount), chunks.value))
  }

  /** Pages whose joined text mentions no image path come back as that joined text. */
  lemma RunPymupdfPlainText(chunks: seq<string>, pageCount: nat, images: seq<ImageFile>)
    requires NoImagePaths(Join(chunks, "\n"), Names(images))
    ensures RunPymupdf(Some(chunks), pageCount, images).value.result.markdown == Join(chunks, "\n")
  {
    NormalizeWithoutPaths(Join(chunks, "\n"), Names(images));
  }

  /** With one extracted image, mentioned once by its absolute path, the joined text comes back
      with that path rewritten to the image's bare name. */
  lemma RunPymupdfOneImage(chunks: seq<string>, pageCount: nat, img: ImageFile, pre: string, post: string)
    requires Join(chunks, "\n") == pre + ImagePath(img.name) + post
    requires NoImagePaths(post, [img.name])
    requires forall i :: 0 <= i < |pre| ==> !OccursAt(pre + ImagePath(img.name) + post, ImagePath(img.name), i)
    requires NoImagePaths(pre + img.name + post, [img.name])
    ensures RunPymupdf(Some(chunks), pageCount, [img]).value.result.markdown == pre + img.name + post
  {
    assert Names([img]) == [img.name];
    NormalizeOneImage(pre, img.name, post);
  }

  // ---------------------------------------------------------------------------------------
  // Formula OCR
  // ---------------------------------------------------------------------------------------

  /** Step 1 of `_run_formula_ocr`: the regions of every page, in page order. */
  function AllRegions(pages: seq<PageLayout>): (rs: seq<Region>)
    decreases |pages|
  {
    if pages == [] then [] else AllRegions(pages[..|pages| - 1]) + DetectFormulaRegions(pages[|pages| - 1])
  }

  /** The pages some region lies on. */
  function PagesWithFormulas(regions: seq<Region>): set<int>
  {
    set k | 0 <= k < |regions| :: regions[k].page
  }

  /** Step 2: the pages with formulas rendered for cropping, and no other page. */
  function Rendered(regions: seq<Region>, render: int -> Bitmap): (m: map<int, Bitmap>)
    ensures m.Keys == PagesWithFormulas(regions)
    ensures forall p :: p in m ==> m[p] == render(p)
  {
    map p | p in PagesWithFormulas(regions) :: render(p)
  }

  /** `_run_formula_ocr`: without regions the pages are simply joined; otherwise render,
      OCR with the default batch size, and patch. */
  function RunFormulaOcr(pages: seq<PageLayout>, pageMarkdowns: seq<string>, apiKey: string,
                         render: int -> Bitmap, answers: seq<Option<string>>): (r: Result<string, OcrError>)
    ensures r.Err? ==> AllRegions(pages) != [] && apiKey != []
  {
    var regions := AllRegions(pages);
    if regions == [] then Ok(Join(pageMarkdowns, "\n"))
    else match OcrFormulas(regions, Rendered(regions, render), apiKey, FormulaOcr.DefaultBatchSize, answers)
      case Err(e) => Err(e)
      case Ok(done) => Ok(Patch.PatchMarkdown(pageMarkdowns, done))
  }

  /** Every region's page is rendered. */
  lemma EveryRegionRendered(regions: seq<Region>, render: int -> Bitmap, j: nat)
    requires j < |regions|
    ensures regions[j].page in Rendered(regions, render)
    ensures Rendered(regions, render)[regions[j].page] == render(regions[j].page)
  {
    assert regions[j].page in PagesWithFormulas(regions);
  }

  /** Without detected regions, the pages are joined and neither the renderer nor the model is
      consulted: any renderer and any answers give the same text. */
  lemma NoRegionsNoOcr(pages: seq<PageLayout>, pageMarkdowns: seq<string>, apiKey: string,
                       render1: int -> Bitmap, answers1: seq<Option<string>>,
                       render2: int -> Bitmap, answers2: seq<Option<string>>)
    requires AllRegions(pages) == []
    ensures RunFormulaOcr(pages, pageMarkdowns, apiKey, render1, answers1) == Ok(Join(pageMarkdowns, "\n"))
    ensures RunFormulaOcr(pages, pageMarkdowns, apiKey, render1, answers1)
            == RunFormulaOcr(pages, pageMarkdowns, apiKey, render2, answers2)
  {
  }

  /** The regions found on a run of pages carry no LaTeX yet. */
  lemma {:induction false} AllRegionsNoLatex(pages: seq<PageLayout>)
    ensures NoLatexYet(AllRegions(pages))
    decreases |pages|
  {
    if pages != [] {
      var init: seq<Region> := AllRegions(pages[..|pages| - 1]);
      var last: seq<Region> := DetectFormulaRegions(pages[|pages| - 1]);
      AllRegionsNoLatex(pages[..|pages| - 1]);
      DetectedHaveNoLatex(pages[|pages| - 1]);
      forall k | 0 <= k < |init + last| ensures (init + last)[k].latex == [] {
        if k >= |init| {
          assert (init + last)[k] == last[k - |init|];
        }
      }
    }
  }

  /** OCR fails only when a region cannot be cropped from its rendered page (with a key); the
      default batch size never fails. */
  lemma RunFormulaOcrFails(pages: seq<PageLayout>, pageMarkdowns: seq<string>, apiKey: string,
                           render: int -> Bitmap, answers: seq<Option<string>>)
    ensures var regions := AllRegions(pages);
            RunFormulaOcr(pages, pageMarkdowns, apiKey, render, answers).Err? <==>
            regions != [] && apiKey != [] &&
            exists j :: 0 <= j < |regions| && CropFormulaImage(render(regions[j].page), regions[j].box, RenderDpi).Err?
  {
    var regions := AllRegions(pages);
    var images := Rendered(regions, render);
    OcrFailsWhen(regions, images, apiKey, FormulaOcr.DefaultBatchSize, answers);
    forall j | 0 <= j < |regions|
      ensures regions[j].page in images && CropOf(regions[j], images) == CropFormulaImage(render(regions[j].page), regions[j].box, RenderDpi)
    {
      EveryRegionRendered(regions, render, j);
    }
  }

  /** When the model reads nothing (every request fails), the pages come back joined and
      unpatched. */
  lemma NothingReadJoins(pages: seq<PageLayout>, pageMarkdowns: seq<string>, apiKey: string,
                         render: int -> Bitmap, answers: seq<Option<string>>)
    requires forall i :: 0 <= i < |answers| ==> answers[i].None?
    requires RunFormulaOcr(pages, pageMarkdowns, apiKey, render, answers).Ok?
    ensures RunFormulaOcr(pages, pageMarkdowns, apiKey, render, answers) == Ok(Join(pageMarkdowns, "\n"))
  {
    var regions := AllRegions(pages);
    if regions != [] {
      var images := Rendered(regions, render);
      OcrAllFailed(regions, images, apiKey, FormulaOcr.DefaultBatchSize, answers);
      AllRegionsNoLatex(pages);
      forall k | 0 <= k < |regions| ensures !Patch.HasLatex(regions[k]) {
        assert regions[k].latex == [];
        StripUnchanged(regions[k].latex);
      }
      Patch.NoLatexJoinsPages(pageMarkdowns, regions);
    }
  }

  /** Without an API key no region is read, so the pages come back joined and unpatched. */
  lemma RunFormulaOcrWithoutKey(pages: seq<PageLayout>, pageMarkdowns: seq<string>,
                                render: int -> Bitmap, answers: seq<Option<string>>)
    ensures RunFormulaOcr(pages, pageMarkdowns, [], render, answers) == Ok(Join(pageMarkdowns, "\n"))
  {
    var regions := AllRegions(pages);
    if regions != [] {
      AllRegionsNoLatex(pages);
      forall k | 0 <= k < |regions| ensures !Patch.HasLatex(regions[k]) {
        assert regions[k].latex == [];
        StripUnchanged(regions[k].latex);
      }
      Patch.NoLatexJoinsPages(pageMarkdowns, regions);
    }
  }

  // ---------------------------------------------------------------------------------------
  // The hybrid pipeline
  // ---------------------------------------------------------------------------------------

  /** `_run_hybrid`: an extraction error propagates; without page markdown, or when formula
      OCR fails, the plain result is returned; otherwise the patched markdown, with image paths
      rewritten again, replaces the plain markdown. */
  function RunHybrid(plain: Result<PlainRun, ConversionError>, pages: seq<PageLayout>, apiKey: string,
                     render: int -> Bitmap, answers: seq<Option<string>>): (r: Result<ConversionResult, ConversionError>)
    ensures plain.Err? ==> r == Err(plain.error)
    ensures plain.Ok? ==> r.Ok? && r.value.images == plain.value.result.images
                          && r.value.pageCount == plain.value.result.pageCount
    ensures plain.Ok? && plain.value.pageMarkdowns == [] ==> r == Ok(plain.value.result)
  {
    if plain.Err? then Err(plain.error)
    else
      var run := plain.value;
      if run.pageMarkdowns == [] then Ok(run.result)
      else match RunFormulaOcr(pages, run.pageMarkdowns, apiKey, render, answers)
        case Err(_) => Ok(run.result)
        case Ok(md) =>
          Ok(ConversionResult(NormalizeImagePaths(md, Names(run.result.images)), run.result.images, run.result.pageCount))
  }

  /** Any failure of formula OCR degrades to the unpatched result. */
  lemma HybridFallsBack(plain: Result<PlainRun, ConversionError>, pages: seq<PageLayout>, apiKey: string,
                        render: int -> Bitmap, answers: seq<Option<string>>)
    requires plain.Ok? && plain.value.pageMarkdowns != []
    requires RunFormulaOcr(pages, plain.value.pageMarkdowns, apiKey, render, answers).Err?
    ensures RunHybrid(plain, pages, apiKey, render, answers) == Ok(plain.value.result)
  {
  }

  /** On success, patched text that mentions no image path is the converted markdown, and the
      images and page count are the plain extraction's. */
  lemma HybridKeepsPatchedText(plain: Result<PlainRun, ConversionError>, pages: seq<PageLayout>, apiKey: string,
                               render: int -> Bitmap, answers: seq<Option<string>>, md: string)
    requires plain.Ok? && plain.value.pageMarkdowns != []
    requires RunFormulaOcr(pages, plain.value.pageMarkdowns, apiKey, render, answers) == Ok(md)
    requires NoImagePaths(md, Names(plain.value.result.images))
    ensures RunHybrid(plain, pages, apiKey, render, answers)
            == Ok(ConversionResult(md, plain.value.result.images, plain.value.result.pageCount))
  {
    NormalizeWithoutPaths(md, Names(plain.value.result.images));
  }

  /** On success, with one extracted image mentioned once by its absolute path in the patched
      text, the converted markdown is that text with the path rewritten to the bare name. */
  lemma HybridRewritesImagePath(plain: Result<PlainRun, ConversionError>, pages: seq<PageLayout>, apiKey: string,
                                render: int -> Bitmap, answers: seq<Option<string>>,
                                img: ImageFile, pre: string, post: string)
    requires plain.Ok? && plain.value.pageMarkdowns != [] && plain.value.result.images == [img]
    requires RunFormulaOcr(pages, plain.value.pageMarkdowns, apiKey, render, answers)
             == Ok(pre + ImagePath(img.name) + post)
    requires NoImagePaths(post, [img.name])
    requires forall i :: 0 <= i < |pre| ==> !OccursAt(pre + ImagePath(img.name) + post, ImagePath(img.name), i)
    requires NoImagePaths(pre + img.name + post, [img.name])
    ensures RunHybrid(plain, pages, apiKey, render, answers).value.markdown == pre + img.name + post
  {
    assert Names([img]) == [img.name];
    NormalizeOneImage(pre, img.name, post);
  }

  /** A document in which the model reads nothing — because no formula was found or every
      request failed — converts exactly as the plain extraction does, unless a crop fails, in
      which case it falls back to it anyway. */
  lemma HybridWithoutFormulasIsPlain(chunks: seq<string>, pageCount: nat, images: seq<ImageFile>,
                                     pages: seq<PageLayout>, apiKey: string,
                                     render: int -> Bitmap, answers: seq<Option<string>>)
    requires AllRegions(pages) == [] || forall i :: 0 <= i < |answers| ==> answers[i].None?
    ensures var plain := RunPymupdf(Some(chunks), pageCount, images);
            RunHybrid(plain, pages, apiKey, render, answers) == Ok(plain.value.result)
  {
    var joined := Join(chunks, "\n");
    var plain := RunPymupdf(Some(chunks), pageCount, images);
    if chunks != [] {
      var ocr := RunFormulaOcr(pages, chunks, apiKey, render, answers);
      if ocr.Ok? {
        if AllRegions(pages) == [] {
          NoRegionsNoOcr(pages, chunks, apiKey, render, answers, render, answers);
        } else {
          NothingReadJoins(pages, chunks, apiKey, render, answers);
        }
        assert ocr.value == joined;
      }
    }
  }
}
