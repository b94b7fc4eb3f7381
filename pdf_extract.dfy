/**
 * `pdfToText`: one pass over the pages of a loaded PDF. Each page contributes its
 * text items joined by spaces plus a newline; then, unless 100 images have
 * already been counted before the page began, the description of each image it
 * paints, in operator order, each followed by a newline.
 *
 * pdf.js is replaced by its output: a page is its text items, its operator list
 * and the image objects its operators name. The sharp resize and PNG/base64
 * encoding is the oracle `encode`, the hosted vision model the oracle `describe`.
 */
module PdfExtract {
  import opened Wrappers
  import opened Text
  import opened Raster

  /** pdf.js `OPS.paintImageXObject`. */
  const PaintImageXObject: int := 85
  /** Images counted before a page begins beyond which its images are skipped. */
  const ImageCap: nat := 100

  datatype ImageObject = ImageObject(data: Option<seq<byte>>, width: nat, height: nat, kind: int)

  /** One entry of the operator list: its opcode and the first of its arguments. */
  datatype Op = Op(fn: int, name: string)

  datatype Page = Page(items: seq<string>, ops: seq<Op>, objs: map<string, ImageObject>)

  type Encoder = (seq<byte>, nat, nat) -> string
  type Describer = string -> string

  /** The operator paints an image object that resolved with data. */
  predicate Paints(page: Page, op: Op)
  {
    op.fn == PaintImageXObject && op.name in page.objs && page.objs[op.name].data.Some?
  }

  /** A page's native text: its items joined by spaces, then a newline. */
  function NativeText(page: Page): string
  {
    Join(page.items) + "\n"
  }

  /** What the vision model says about one painted image. */
  function Describe(page: Page, op: Op, encode: Encoder, describe: Describer): string
    requires Paints(page, op)
  {
    var img := page.objs[op.name];
    describe(encode(Canonical(img.data.value, img.width, img.height, img.kind), img.width, img.height))
  }

  /** The descriptions of the images painted by `ops`, each followed by a newline. */
  function ImageText(page: Page, ops: seq<Op>, encode: Encoder, describe: Describer): string
  {
    if ops == [] then ""
    else
      (if Paints(page, ops[0]) then Describe(page, ops[0], encode, describe) + "\n" else "")
      + ImageText(page, ops[1..], encode, describe)
  }

  /** The number of images painted by `ops`, each of which raises the counter by one. */
  function ImageCount(page: Page, ops: seq<Op>): nat
  {
    if ops == [] then 0 else (if Paints(page, ops[0]) then 1 else 0) + ImageCount(page, ops[1..])
  }

  /** What one page adds to the text: its native text, then its image descriptions unless the cap was reached. */
  function PageOutput(page: Page, count: nat, encode: Encoder, describe: Describer): string
  {
    NativeText(page) + (if count >= ImageCap then "" else ImageText(page, page.ops, encode, describe))
  }

  /** The counter after a page that started at `count`: unchanged when the cap had been reached. */
  function Step(count: nat, page: Page): nat
  {
    if count >= ImageCap then count else count + ImageCount(page, page.ops)
  }

  function FinalCount(pages: seq<Page>, count: nat): nat
  {
    if pages == [] then count else FinalCount(pages[1..], Step(count, pages[0]))
  }

  /** The text of `pages` when `count` images were counted before the first of them. */
  function Extract(pages: seq<Page>, count: nat, encode: Encoder, describe: Describer): string
  {
    if pages == [] then ""
    else
      var page := pages[0];
      PageOutput(page, count, encode, describe) + Extract(pages[1..], Step(count, page), encode, describe)
  }

  /** Every page's native text, in page order. */
  function AllNativeText(pages: seq<Page>): string
  {
    if pages == [] then "" else NativeText(pages[0]) + AllNativeText(pages[1..])
  }

  /** The page loop of `pdfToText`, with `text` and `numImgs` as accumulators. */
  method PdfToText(pages: seq<Page>, encode: Encoder, describe: Describer) returns (text: string)
    ensures text == Extract(pages, 0, encode, describe)
  {
    var numImgs: nat := 0;
    text := "";
    var i := 0;
    assert pages[0..] == pages;
    while i < |pages|
      invariant 0 <= i <= |pages|
      invariant text + Extract(pages[i..], numImgs, encode, describe) == Extract(pages, 0, encode, describe)
    {
      ExtractUnfold(pages, i, numImgs, encode, describe);
      var pageText, counted := PageText(pages[i], numImgs, encode, describe);
      Associate(text, pageText, Extract(pages[i + 1..], counted, encode, describe));
      text := text + pageText;
      numImgs := counted;
      i := i + 1;
    }
  }

  /**
   * One pass of the page loop: the page's native text, then, unless 100 images
   * were already counted (`continue`), the descriptions of its images.
   */
  method PageText(page: Page, numImgs: nat, encode: Encoder, describe: Describer) returns (pageText: string, counted: nat)
    ensures pageText == PageOutput(page, numImgs, encode, describe)
    ensures counted == Step(numImgs, page)
  {
    pageText := Join(page.items) + "\n";
    if numImgs >= ImageCap {
      assert pageText + "" == pageText;
      return pageText, numImgs;
    }
    var imgContent;
    imgContent, counted := PageImages(page, numImgs, encode, describe);
    pageText := pageText + imgContent;
  }

  lemma Associate(a: string, b: string, c: string)
    ensures (a + b) + c == a + (b + c)
  {
  }

  lemma ExtractUnfold(pages: seq<Page>, i: nat, count: nat, encode: Encoder, describe: Describer)
    requires i < |pages|
    ensures Extract(pages[i..], count, encode, describe)
      == PageOutput(pages[i], count, encode, describe) + Extract(pages[i + 1..], Step(count, pages[i]), encode, describe)
  {
    assert pages[i..][1..] == pages[i + 1..];
    assert pages[i..][0] == pages[i];
  }

  /** The operator loop of one page: resolves, converts, encodes and describes each painted image. */
  method PageImages(page: Page, start: nat, encode: Encoder, describe: Describer) returns (imgContent: string, numImgs: nat)
    ensures imgContent == ImageText(page, page.ops, encode, describe)
    ensures numImgs == start + ImageCount(page, page.ops)
  {
    var ops := page.ops;
    imgContent := "";
    numImgs := start;
    var j := 0;
    while j < |ops|
      invariant 0 <= j <= |ops|
      invariant imgContent + ImageText(page, ops[j..], encode, describe) == ImageText(page, ops, encode, describe)
      invariant numImgs + ImageCount(page, ops[j..]) == start + ImageCount(page, ops)
    {
      assert ops[j..][1..] == ops[j + 1..] && ops[j..][0] == ops[j];
      ghost var before := imgContent;
      ghost var piece := if Paints(page, ops[j]) then Describe(page, ops[j], encode, describe) + "\n" else "";
      ghost var tail := ImageText(page, ops[j + 1..], encode, describe);
      assert ImageText(page, ops[j..], encode, describe) == piece + tail;
      if ops[j].fn == PaintImageXObject {
        var imgName := ops[j].name;
        if imgName in page.objs && page.objs[imgName].data.Some? {
          var img := page.objs[imgName];
          var rgba := ConvertToRgba(img.data.value, img.width, img.height, img.kind);
          var base64Image := encode(rgba[..], img.width, img.height);
          numImgs := numImgs + 1;
          var currImgContent := describe(base64Image);
          imgContent := imgContent + currImgContent + "\n";
        }
      }
      assert imgContent == before + piece;
      Associate(before, piece, tail);
      j := j + 1;
    }
  }

  /**
   * Appending a page appends its native text and then, if fewer than 100 images
   * were counted before it, its image descriptions: page order is kept and each
   * page's native text comes before its images.
   */
  lemma {:induction false} ExtractAppendPage(pages: seq<Page>, page: Page, count: nat, encode: Encoder, describe: Describer)
    ensures Extract(pages + [page], count, encode, describe)
      == Extract(pages, count, encode, describe) + PageOutput(page, FinalCount(pages, count), encode, describe)
  {
    assert forall j :: 0 <= j < |pages| ==> (pages + [page])[j] == pages[j];
    assert (pages + [page])[|pages|] == page;
    if pages == [] {
      assert [] + [page] == [page] && [page][1..] == [];
    } else {
      var first := pages[0];
      assert (pages + [page])[0] == first;
      assert (pages + [page])[1..] == pages[1..] + [page];
      ExtractAppendPage(pages[1..], page, Step(count, first), encode, describe);
      var rest := Extract(pages[1..], Step(count, first), encode, describe);
      var last := PageOutput(page, FinalCount(pages, count), encode, describe);
      assert Extract(pages + [page], count, encode, describe)
        == PageOutput(first, count, encode, describe) + Extract(pages[1..] + [page], Step(count, first), encode, describe);
      Associate(PageOutput(first, count, encode, describe), rest, last);
    }
  }

  /** Once the cap is reached, only native text is extracted, for every remaining page. */
  lemma {:induction false} CapReachedNativeOnly(pages: seq<Page>, count: nat, encode: Encoder, describe: Describer)
    requires count >= ImageCap
    ensures Extract(pages, count, encode, describe) == AllNativeText(pages)
    ensures FinalCount(pages, count) == count
  {
    if pages != [] {
      CapReachedNativeOnly(pages[1..], count, encode, describe);
    }
  }

  lemma {:induction false} NoImagesNoText(page: Page, ops: seq<Op>, encode: Encoder, describe: Describer)
    requires ImageCount(page, ops) == 0
    ensures ImageText(page, ops, encode, describe) == ""
  {
    if ops != [] {
      NoImagesNoText(page, ops[1..], encode, describe);
    }
  }

  /** A document that paints no image with data yields exactly its native text, page by page. */
  lemma {:induction false} NoImagesNativeOnly(pages: seq<Page>, count: nat, encode: Encoder, describe: Describer)
    requires forall i :: 0 <= i < |pages| ==> ImageCount(pages[i], pages[i].ops) == 0
    ensures Extract(pages, count, encode, describe) == AllNativeText(pages)
  {
    if pages != [] {
      NoImagesNoText(pages[0], pages[0].ops, encode, describe);
      assert PageOutput(pages[0], count, encode, describe) == NativeText(pages[0]);
      assert forall i :: 0 <= i < |pages| - 1 ==> pages[1..][i] == pages[i + 1];
      NoImagesNativeOnly(pages[1..], Step(count, pages[0]), encode, describe);
    }
  }

  function Max(a: int, b: int): int
  {
    if a >= b then a else b
  }

  /**
   * The image budget: if no page paints more than `m` images, the counter never
   * ends above 99 + m (or where it started), so at most 99 + m images are ever described.
   */
  lemma {:induction false} BudgetBound(pages: seq<Page>, count: nat, m: nat)
    requires forall i :: 0 <= i < |pages| ==> ImageCount(pages[i], pages[i].ops) <= m
    ensures count <= FinalCount(pages, count) <= Max(count, ImageCap - 1 + m)
  {
    if pages != [] {
      assert forall i :: 0 <= i < |pages| - 1 ==> pages[1..][i] == pages[i + 1];
      var next := Step(count, pages[0]);
      BudgetBound(pages[1..], next, m);
    }
  }

  /** A single page reading "Hello World" with no images extracts to "Hello World\n". */
  lemma HelloWorld(encode: Encoder, describe: Describer)
    ensures Extract([Page(["Hello", "World"], [], map[])], 0, encode, describe) == "Hello World\n"
  {
    var page := Page(["Hello", "World"], [], map[]);
    assert ["Hello", "World"][1..] == ["World"];
    assert Join(page.items) == "Hello World";
    assert [page][1..] == [];
  }
}
