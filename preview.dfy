/** The filename and page-range preview table: one row per split of every
    uploaded document, and the duplicate mask over its Filename column. */
module Preview {
  import opened Naming
  import opened PageLabel
  import opened Duplicates
  import opened Wrappers

  /** One `(raw, start, end)` triple of the split plan. */
  datatype Split = Split(raw: string, start: int, end: int)

  /** An uploaded document: its name and the split plan computed for it. */
  datatype Upload = Upload(name: string, splits: seq<Split>)

  /** One preview row, with its four columns. */
  datatype Row = Row(sourcePdf: string, formName: string, pages: string, filename: string)

  /** The row the loop body appends for split `sp` of the upload named
      `source`. */
  function RowFor(source: string, sp: Split, opt: Options): Row {
    Row(source, sp.raw, PagesLabel(sp.start, sp.end), FileName(sp.raw, opt))
  }

  /** `RowFor` as a function of the (source name, split) pair. */
  function RowOf(opt: Options): ((string, Split)) -> Row {
    (p: (string, Split)) => RowFor(p.0, p.1, opt)
  }

  /** `g` applied to every element of `xs`, in order. */
  function MapSeq<A, B>(g: A -> B, xs: seq<A>): (ys: seq<B>)
    ensures |ys| == |xs|
    ensures forall k | 0 <= k < |xs| :: ys[k] == g(xs[k])
  {
    seq(|xs|, k requires 0 <= k < |xs| => g(xs[k]))
  }

  lemma MapSeqAppend<A, B>(g: A -> B, xs: seq<A>, zs: seq<A>)
    ensures MapSeq(g, xs + zs) == MapSeq(g, xs) + MapSeq(g, zs)
  {
    var l, r := MapSeq(g, xs + zs), MapSeq(g, xs) + MapSeq(g, zs);
    assert |l| == |r|;
    forall k | 0 <= k < |l|
      ensures l[k] == r[k]
    {
      if k < |xs| {
        assert (xs + zs)[k] == xs[k];
      } else {
        assert (xs + zs)[k] == zs[k - |xs|];
      }
    }
  }

  lemma MapSeqSnoc<A, B>(g: A -> B, xs: seq<A>, j: int)
    requires 0 <= j < |xs|
    ensures MapSeq(g, xs[..j + 1]) == MapSeq(g, xs[..j]) + [g(xs[j])]
  {
    assert xs[..j + 1] == xs[..j] + [xs[j]];
    MapSeqAppend(g, xs[..j], [xs[j]]);
  }

  /** The lists `f(x)` for the elements `x` of `xs`, laid end to end. */
  function FlatMap<A, B>(f: A -> seq<B>, xs: seq<A>): seq<B> {
    if xs == [] then [] else FlatMap(f, xs[..|xs| - 1]) + f(xs[|xs| - 1])
  }

  lemma FlatMapSnoc<A, B>(f: A -> seq<B>, xs: seq<A>, i: int)
    requires 0 <= i < |xs|
    ensures FlatMap(f, xs[..i + 1]) == FlatMap(f, xs[..i]) + f(xs[i])
  {
    assert xs[..i + 1][..i] == xs[..i];
  }

  /** Element j of `f(xs[i])` sits in the flattening just after the
      elements contributed by `xs[..i]`. */
  lemma {:induction false} FlatMapIndex<A, B>(f: A -> seq<B>, xs: seq<A>, i: int, j: int)
    requires 0 <= i < |xs| && 0 <= j < |f(xs[i])|
    ensures |FlatMap(f, xs[..i])| + j < |FlatMap(f, xs)|
    ensures FlatMap(f, xs)[|FlatMap(f, xs[..i])| + j] == f(xs[i])[j]
    decreases |xs|
  {
    var init := xs[..|xs| - 1];
    assert FlatMap(f, xs) == FlatMap(f, init) + f(xs[|xs| - 1]);
    if i == |xs| - 1 {
      assert xs[..i] == init;
    } else {
      assert init[..i] == xs[..i];
      assert init[i] == xs[i];
      FlatMapIndex(f, init, i, j);
    }
  }

  /** The splits of one upload, each paired with the upload's name. */
  function SplitsOf(u: Upload): (ps: seq<(string, Split)>)
    ensures |ps| == |u.splits|
    ensures forall j | 0 <= j < |u.splits| :: ps[j] == (u.name, u.splits[j])
  {
    seq(|u.splits|, j requires 0 <= j < |u.splits| => (u.name, u.splits[j]))
  }

  /** The splits of all uploads, upload after upload. */
  function AllSplits(us: seq<Upload>): seq<(string, Split)> {
    FlatMap(SplitsOf, us)
  }

  /** The rows of one upload, one per split, in split order. */
  function UploadRows(u: Upload, opt: Options): seq<Row> {
    MapSeq(RowOf(opt), SplitsOf(u))
  }

  /** The rows of all uploads, upload after upload. */
  function AllRows(us: seq<Upload>, opt: Options): seq<Row> {
    MapSeq(RowOf(opt), AllSplits(us))
  }

  /** How many splits the uploads have in all. */
  function SplitCount(us: seq<Upload>): nat {
    if us == [] then 0 else SplitCount(us[..|us| - 1]) + |us[|us| - 1].splits|
  }

  /** The Filename column. */
  function FileNames(rows: seq<Row>): (names: seq<string>)
    ensures |names| == |rows|
    ensures forall i | 0 <= i < |rows| :: names[i] == rows[i].filename
  {
    seq(|rows|, i requires 0 <= i < |rows| => rows[i].filename)
  }

  lemma {:induction false} AllSplitsLength(us: seq<Upload>)
    ensures |AllSplits(us)| == SplitCount(us)
    decreases |us|
  {
    if us != [] {
      var n := |us|;
      FlatMapSnoc(SplitsOf, us, n - 1);
      assert us[..n] == us;
      AllSplitsLength(us[..n - 1]);
    }
  }

  /** There is exactly one row per split. */
  lemma AllRowsLength(us: seq<Upload>, opt: Options)
    ensures |AllRows(us, opt)| == SplitCount(us)
  {
    AllSplitsLength(us);
  }

  /** Split j of upload i is pair `SplitCount(us[..i]) + j` of all splits. */
  lemma AllSplitsAt(us: seq<Upload>, i: int, j: int)
    requires 0 <= i < |us| && 0 <= j < |us[i].splits|
    ensures SplitCount(us[..i]) + j < |AllSplits(us)|
    ensures AllSplits(us)[SplitCount(us[..i]) + j] == (us[i].name, us[i].splits[j])
  {
    AllSplitsLength(us[..i]);
    FlatMapIndex(SplitsOf, us, i, j);
  }

  /** What a row built by `RowFor` shows. */
  lemma RowForFields(source: string, sp: Split, opt: Options)
    ensures RowFor(source, sp, opt).sourcePdf == source
    ensures RowFor(source, sp, opt).formName == sp.raw
    ensures ParsePages(RowFor(source, sp, opt).pages) == Some((sp.start, sp.end))
    ensures RowFor(source, sp, opt).filename == FileName(sp.raw, opt)
  {
    PagesRoundTrip(sp.start, sp.end);
  }

  /** Split j of upload i gives the row at position SplitCount(us[..i]) + j,
      so rows come in upload order and, within an upload, in split order.
      The row keeps the untouched title as its form name, names its upload,
      shows the split's start and end, and carries the derived file name. */
  lemma AllRowsAt(us: seq<Upload>, opt: Options, i: int, j: int)
    requires 0 <= i < |us| && 0 <= j < |us[i].splits|
    ensures var k := SplitCount(us[..i]) + j;
      var sp := us[i].splits[j];
      && k < |AllRows(us, opt)|
      && AllRows(us, opt)[k].sourcePdf == us[i].name
      && AllRows(us, opt)[k].formName == sp.raw
      && ParsePages(AllRows(us, opt)[k].pages) == Some((sp.start, sp.end))
      && AllRows(us, opt)[k].filename == FileName(sp.raw, opt)
  {
    AllSplitsAt(us, i, j);
    RowForFields(us[i].name, us[i].splits[j], opt);
  }

  /** The loop over the uploads, appending each upload's rows. */
  method BuildRows(us: seq<Upload>, opt: Options) returns (rows: seq<Row>)
    ensures rows == AllRows(us, opt)
  {
    rows := [];
    for i := 0 to |us|
      invariant rows == AllRows(us[..i], opt)
    {
      var more := BuildUploadRows(us[i], opt);
      FlatMapSnoc(SplitsOf, us, i);
      MapSeqAppend(RowOf(opt), AllSplits(us[..i]), SplitsOf(us[i]));
      rows := rows + more;
    }
    assert us[..|us|] == us;
  }

  /** The `for raw, start, end in splits` loop, appending one row per split. */
  method BuildUploadRows(u: Upload, opt: Options) returns (rows: seq<Row>)
    ensures rows == UploadRows(u, opt)
  {
    rows := [];
    for j := 0 to |u.splits|
      invariant rows == MapSeq(RowOf(opt), SplitsOf(u)[..j])
    {
      var sp := u.splits[j];
      var fname := DeriveFileName(sp.raw, opt);
      var row := Row(u.name, sp.raw, PagesLabel(sp.start, sp.end), fname);
      assert row == RowOf(opt)(SplitsOf(u)[j]);
      MapSeqSnoc(RowOf(opt), SplitsOf(u), j);
      rows := rows + [row];
    }
    assert SplitsOf(u)[..|u.splits|] == SplitsOf(u);
  }

  /** The whole preview: the rows, and which of them to mark in red. A batch
      without a single split gives a DataFrame with no columns, whose
      `df["Filename"]` raises KeyError: that failure is None. */
  method BuildPreview(us: seq<Upload>, opt: Options) returns (res: Option<(seq<Row>, seq<bool>)>)
    ensures res.None? <==> SplitCount(us) == 0
    ensures res.Some? ==> var (rows, dup) := res.value;
      && rows == AllRows(us, opt)
      && |dup| == |rows| == SplitCount(us)
      && forall i | 0 <= i < |rows| ::
           dup[i] <==> exists j | 0 <= j < |rows| :: j != i && rows[j].filename == rows[i].filename
  {
    var rows := BuildRows(us, opt);
    AllRowsLength(us, opt);
    if |rows| == 0 {
      return None;
    }
    var names := FileNames(rows);
    var dup := FlagDuplicates(names);
    res := Some((rows, dup));
  }
}
