/** The per-form output filename: ID strip, removal patterns, cleaning, and
    `f"{prefix}{clean}{suffix}.pdf"`. */
module Naming {
  import opened Chars
  import opened IdStrip
  import opened Removal
  import opened Slugify

  /** The user's naming choices: the "remove ID" switch, the removal patterns
      in the order given, and the prefix and suffix. */
  datatype Options = Options(removeId: bool, patterns: seq<string>, prefix: string, suffix: string)

  /** The `clean` part of the file name: the ID strip first, the patterns
      next, the cleaning last. */
  function Stem(raw: string, opt: Options): (r: string)
    ensures NoSpace(r) && NoReserved(r)
  {
    Slug(ApplyAll(MaybeStripId(raw, opt.removeId), opt.patterns))
  }

  function FileName(raw: string, opt: Options): string {
    opt.prefix + Stem(raw, opt) + opt.suffix + ".pdf"
  }

  /** The file name is the prefix, then a clean stem, then the suffix and
      `.pdf`; cutting off prefix and tail gives the stem back. */
  lemma FileNameShape(raw: string, opt: Options)
    ensures var f := FileName(raw, opt);
      var tail := opt.suffix + ".pdf";
      && |f| == |opt.prefix| + |Stem(raw, opt)| + |tail|
      && f[..|opt.prefix|] == opt.prefix
      && f[|f| - |tail|..] == tail
      && f[|opt.prefix|..|f| - |tail|] == Stem(raw, opt)
      && Slug(Stem(raw, opt)) == Stem(raw, opt)
  {
    SlugIdempotent(ApplyAll(MaybeStripId(raw, opt.removeId), opt.patterns));
    ConcatParts(opt.prefix, Stem(raw, opt), opt.suffix + ".pdf");
    assert FileName(raw, opt) == opt.prefix + Stem(raw, opt) + (opt.suffix + ".pdf");
  }

  lemma ConcatParts(p: string, m: string, t: string)
    ensures var f := p + m + t;
      && f[..|p|] == p
      && f[|f| - |t|..] == t
      && f[|p|..|f| - |t|] == m
  {
  }

  /** Under one set of options, two titles get the same file name exactly
      when they get the same stem. */
  lemma FileNamesCollideIff(a: string, b: string, opt: Options)
    ensures FileName(a, opt) == FileName(b, opt) <==> Stem(a, opt) == Stem(b, opt)
  {
    if FileName(a, opt) == FileName(b, opt) {
      FileNameShape(a, opt);
      FileNameShape(b, opt);
    }
  }

  /** Lines 14-21 as written: the name is rebound step by step. */
  method DeriveFileName(raw: string, opt: Options) returns (fname: string)
    ensures fname == FileName(raw, opt)
  {
    var name := raw;
    if opt.removeId {
      name := StripId(name);
    }
    assert name == MaybeStripId(raw, opt.removeId);
    name := RemovePatterns(name, opt.patterns);
    var clean := CollapseSpaces(Strip(name));
    clean := DropReserved(clean);
    assert clean == Slug(name);
    fname := opt.prefix + clean + opt.suffix + ".pdf";
  }
}
