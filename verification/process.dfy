/** The per-file pipeline's decisions (`ProcessImage` in internal/imageproc/process.go and
    its root copy `processImage` in main.go, which fixes the tolerance at 100).

    Opening, decoding, creating and encoding files are outside the model: the decoded
    image (or the failure to get one) is a parameter, and the outcome records which way the
    pipeline went and, when it writes, what it writes and under which file name. */
module Process {
  import opened Options
  import opened Raster
  import opened Geometry
  import opened Detect
  import opened Adjust
  import opened Paths
  import Scale

  /** The tolerance `processImage` in main.go hard-codes. */
  const RootTolerance: int := 100

  datatype Format = Jpeg | Png | Webp

  /** The decoder chosen for a lower-cased extension. */
  function FormatOf(ext: string): (f: Option<Format>)
    ensures f.Some? <==> ext in {".jpg", ".jpeg", ".png", ".webp"}
    ensures f == Some(Jpeg) <==> ext == ".jpg" || ext == ".jpeg"
  {
    if ext == ".jpg" || ext == ".jpeg" then Some(Jpeg)
    else if ext == ".png" then Some(Png)
    else if ext == ".webp" then Some(Webp)
    else None
  }

  /** Splits `s` into what precedes `sep` and the digit run that ends `s` after it. */
  function SplitNumberAfter(s: string, sep: char): (r: Option<(string, string)>)
    ensures r.Some? ==> AllDigits(r.value.1)
  {
    var d := TrailingDigits(s);
    var n: int := |s| - |d|;
    if d == [] || n == 0 then None
    else if s[n - 1] != sep then None
    else Some((s[..n - 1], d))
  }

  lemma SplitNumberAfterAssembled(front: string, sep: char, digits: string)
    requires !IsDigit(sep) && |digits| >= 1 && AllDigits(digits)
    ensures SplitNumberAfter(front + [sep] + digits, sep) == Some((front, digits))
  {
    SplitTrailingDigits(front, sep, digits);
  }

  /** Reads a name of the form `<base>_<W>x<H><ext>` back into its base and dimensions. */
  function ParseOutputName(name: string, ext: string): Option<(string, Dims)>
  {
    if !HasSuffix(name, ext) then None
    else
      match SplitNumberAfter(name[..|name| - |ext|], 'x')
      case None => None
      case Some((rest, h)) =>
        match SplitNumberAfter(rest, '_')
        case None => None
        case Some((base, w)) => Some((base, Dims(ParseNat(w), ParseNat(h))))
  }

  lemma ParseAssembledName(base: string, ws: string, hs: string, ext: string)
    requires |ws| >= 1 && |hs| >= 1 && AllDigits(ws) && AllDigits(hs)
    ensures ParseOutputName(base + ("_" + ws + "x" + hs + ext), ext)
              == Some((base, Dims(ParseNat(ws), ParseNat(hs))))
  {
    var rest := base + ['_'] + ws;
    var stem := rest + ['x'] + hs;
    var name := stem + ext;
    assert name == base + ("_" + ws + "x" + hs + ext);
    assert HasSuffix(name, ext) by {
      assert name[|name| - |ext|..] == ext;
    }
    assert name[..|name| - |ext|] == stem;
    SplitNumberAfterAssembled(rest, 'x', hs);
    SplitNumberAfterAssembled(base, '_', ws);
  }

  /** `<base>_<W>x<H><ext>`, where `<base>` is the file name with `ext` cut off its end. The
      name ends with the size label and `ext`, and reading it back recovers the base and the
      target size. */
  function OutputFileName(path: string, ext: string, t: Dims): (name: string)
    ensures HasSuffix(name, "_" + NatToString(t.width) + "x" + NatToString(t.height) + ext)
    ensures ParseOutputName(name, ext) == Some((TrimSuffix(Base(path), ext), t))
  {
    var base := TrimSuffix(Base(path), ext);
    var ws := NatToString(t.width);
    var hs := NatToString(t.height);
    var sizeTag := "_" + ws + "x" + hs + ext;
    AppendHasSuffix(base, sizeTag);
    ParseAssembledName(base, ws, hs, ext);
    ParseNatToString(t.width);
    ParseNatToString(t.height);
    base + sizeTag
  }

  /** Which way the pipeline went for one file. */
  datatype Outcome =
    | UnsupportedFileType
    | DecodeFailed
    | NoSuitableRatio
    | Written(name: string, ratio: Ratio, target: Dims, image: Image)

  /** The pipeline for one file: extension check, decode, best ratio, sentinel skip, target
      size, adjustment, output name. */
  function ProcessImage(path: string, decoded: Option<Image>, tolerance: int): (out: Outcome)
    ensures out == UnsupportedFileType <==> FormatOf(ToLower(Ext(path))).None?
    ensures out == DecodeFailed <==> FormatOf(ToLower(Ext(path))).Some? && decoded.None?
    ensures out == NoSuitableRatio <==>
              FormatOf(ToLower(Ext(path))).Some? && decoded.Some?
              && FindBestAspectRatio(Size(decoded.value), tolerance) == NoMatch
    ensures out.Written? ==>
              decoded.Some? &&
              var (q, t) := (out.ratio, out.target);
              && q == FindBestAspectRatio(Size(decoded.value), tolerance)
              && q in Catalog
              && t == CalculateTargetDimensions(Size(decoded.value), q)
              && out.image.width == t.width && out.image.height == t.height
              && out.name == OutputFileName(path, ToLower(Ext(path)), t)
  {
    var ext := ToLower(Ext(path));
    match FormatOf(ext)
    case None => UnsupportedFileType
    case Some(_) =>
      match decoded
      case None => DecodeFailed
      case Some(img) =>
        var q := FindBestAspectRatio(Size(img), tolerance);
        if q.w == 0 || q.h == 0 then NoSuitableRatio
        else
          var t := CalculateTargetDimensions(Size(img), q);
          assert img.width - t.width <= tolerance && img.height - t.height <= tolerance by {
            assert Eligible(Size(img), tolerance, q);
          }
          Written(OutputFileName(path, ext, t), q, t, AdjustImageToAspectRatio(img, t.width, t.height, tolerance))
  }

  /** The chosen ratio already has both losses within the tolerance the adjuster uses, so
      the adjuster always scales: its crop and leave-alone branches are unreachable here. */
  lemma ProcessAlwaysScales(path: string, img: Image, tolerance: int)
    ensures var out := ProcessImage(path, Some(img), tolerance);
            out.Written? ==>
              && ChooseAdjustment(Size(img), out.target.width, out.target.height, tolerance)
                   == ScaleTo(out.target.width, out.target.height)
              && out.image == Scale.ScaleImage(img, out.target.width, out.target.height)
  {
  }

  /** An extension as `filepath.Ext` returns it: a '.' and then neither '.' nor '/'. */
  predicate IsExtension(ext: string)
  {
    |ext| >= 1 && ext[0] == '.' && PlainTail(ext[1..])
  }

  /** `<dir>/<stem><ext>` has the extension `<ext>`. */
  lemma PathExt(dir: string, stem: string, ext: string)
    requires IsExtension(ext)
    ensures Ext(dir + ['/'] + stem + ext) == ext
  {
    var front := dir + ['/'] + stem;
    ExtAfterDot(front, ext[1..]);
    assert front + ['.'] + ext[1..] == front + ext;
    assert ['.'] + ext[1..] == ext;
  }

  /** `<dir>/<stem><ext>` with a '/'-free stem has the base `<stem><ext>`. */
  lemma PathBase(dir: string, stem: string, ext: string)
    requires '/' !in stem && IsExtension(ext)
    ensures Base(dir + ['/'] + stem + ext) == stem + ext
  {
    var name := stem + ext;
    var path := dir + ['/'] + name;
    assert path == dir + ['/'] + stem + ext;
    assert '/' !in name by {
      forall k | 0 <= k < |name|
        ensures name[k] != '/'
      {
        if k >= |stem| + 1 {
          assert name[k] == ext[1..][k - |stem| - 1];
        }
      }
    }
    LastElementAfterSlash(dir, name);
    assert path[|path| - 1] == name[|name| - 1];
  }

  /** A lower-case extension is replaced: the output name is the stem, the target size and
      the extension. */
  lemma NameForLowerCaseExtension(dir: string, stem: string, ext: string, t: Dims)
    requires '/' !in stem && IsExtension(ext) && ToLower(ext) == ext
    ensures var path := dir + ['/'] + stem + ext;
            && ToLower(Ext(path)) == ext
            && OutputFileName(path, ext, t) == stem + ("_" + NatToString(t.width) + "x" + NatToString(t.height) + ext)
  {
    PathExt(dir, stem, ext);
    PathBase(dir, stem, ext);
    AppendHasSuffix(stem, ext);
    assert TrimSuffix(stem + ext, ext) == stem;
  }

  /** An extension with an upper-case letter stays inside the output name, because the
      lower-cased extension is what is cut from the base, and the base does not end with it. */
  lemma NameForOtherCaseExtension(dir: string, stem: string, ext: string, t: Dims)
    requires '/' !in stem && IsExtension(ext) && ToLower(ext) != ext
    ensures var path := dir + ['/'] + stem + ext;
            var lower := ToLower(ext);
            && ToLower(Ext(path)) == lower
            && OutputFileName(path, lower, t)
                 == stem + ext + ("_" + NatToString(t.width) + "x" + NatToString(t.height) + lower)
  {
    PathExt(dir, stem, ext);
    PathBase(dir, stem, ext);
    AppendHasSuffix(stem, ext);
    SameLengthSuffix(stem + ext, ext, ToLower(ext));
    assert TrimSuffix(stem + ext, ToLower(ext)) == stem + ext;
  }

  /** The `_<W>x<H>` part of an output name, spliced between two other parts. */
  lemma SizeLabel(front: string, ws: string, hs: string, back: string)
    ensures front + ("_" + ws + "x" + hs + back) == front + ("_" + ws + "x" + hs) + back
  {
  }

  lemma PrintedTarget1279x853()
    ensures "_" + NatToString(1279) + "x" + NatToString(853) == "_1279x853"
  {
    assert NatToString(12) == "12";
    assert NatToString(127) == "127";
    assert NatToString(1279) == "1279";
    assert NatToString(85) == "85";
    assert NatToString(853) == "853";
  }

  /** A 1280×853 image under the root tolerance: 3:2 is chosen and the image is resampled
      to 1279×853, whatever the file is called. */
  lemma Photo1280x853(path: string, img: Image)
    requires img.width == 1280 && img.height == 853
    requires FormatOf(ToLower(Ext(path))).Some?
    ensures ProcessImage(path, Some(img), RootTolerance)
              == Written(OutputFileName(path, ToLower(Ext(path)), Dims(1279, 853)), Ratio(3, 2),
                         Dims(1279, 853), Scale.ScaleImage(img, 1279, 853))
  {
    FindBestSlightlyOff1280x853();
    assert CalculateTargetDimensions(Size(img), Ratio(3, 2)) == Dims(1279, 853);
  }

  /** The 1280×853 photo `<dir>/<stem><ext>` with a lower-case extension is written as
      `<stem>_1279x853<ext>`. */
  lemma LowerCasePhotoWritten(dir: string, stem: string, ext: string, img: Image)
    requires img.width == 1280 && img.height == 853
    requires '/' !in stem && IsExtension(ext) && ToLower(ext) == ext && FormatOf(ext).Some?
    ensures ProcessImage(dir + ['/'] + stem + ext, Some(img), RootTolerance)
              == Written(stem + "_1279x853" + ext, Ratio(3, 2), Dims(1279, 853), Scale.ScaleImage(img, 1279, 853))
  {
    var path := dir + ['/'] + stem + ext;
    NameForLowerCaseExtension(dir, stem, ext, Dims(1279, 853));
    Photo1280x853(path, img);
    PrintedTarget1279x853();
    SizeLabel(stem, NatToString(1279), NatToString(853), ext);
  }

  /** With an upper-case extension the same photo is written as
      `<stem><ext>_1279x853<lower-cased ext>`. */
  lemma OtherCasePhotoWritten(dir: string, stem: string, ext: string, img: Image)
    requires img.width == 1280 && img.height == 853
    requires '/' !in stem && IsExtension(ext) && ToLower(ext) != ext && FormatOf(ToLower(ext)).Some?
    ensures ProcessImage(dir + ['/'] + stem + ext, Some(img), RootTolerance)
              == Written(stem + ext + "_1279x853" + ToLower(ext), Ratio(3, 2), Dims(1279, 853),
                         Scale.ScaleImage(img, 1279, 853))
  {
    var path := dir + ['/'] + stem + ext;
    NameForOtherCaseExtension(dir, stem, ext, Dims(1279, 853));
    Photo1280x853(path, img);
    PrintedTarget1279x853();
    SizeLabel(stem + ext, NatToString(1279), NatToString(853), ToLower(ext));
  }

  lemma NotesUnsupported()
    ensures FormatOf(ToLower(Ext("notes.txt"))).None?
  {
    ExtAfterDot("notes", "txt");
    assert "notes" + ['.'] + "txt" == "notes.txt";
    assert ToLower(".txt")[1] == 't';
  }

  lemma DirectoryNameUnsupported()
    ensures FormatOf(ToLower(Ext("a.jpg/readme"))).None?
  {
    ExtAfterSlash("a.jpg", "readme");
    assert "a.jpg" + ['/'] + "readme" == "a.jpg/readme";
  }

  lemma ArchiveUnsupported()
    ensures FormatOf(ToLower(Ext("archive.png.gz"))).None?
  {
    ExtAfterDot("archive.png", "gz");
    assert "archive.png" + ['.'] + "gz" == "archive.png.gz";
  }

  lemma UpperCaseWebpSupported()
    ensures FormatOf(ToLower(Ext("IMG.WEBP"))) == Some(Webp)
  {
    ExtAfterDot("IMG", "WEBP");
    assert "IMG" + ['.'] + "WEBP" == "IMG.WEBP";
    var r := ToLower(".WEBP");
    assert r[0] == '.' && r[1] == 'w' && r[2] == 'e' && r[3] == 'b' && r[4] == 'p';
    assert r == ".webp";
  }

  /** Files whose extension is not one of the four are skipped before decoding; the
      extension is that of the last element only, and its case does not matter. */
  lemma SkippedExtensions(decoded: Option<Image>, tolerance: int)
    ensures ProcessImage("notes.txt", decoded, tolerance) == UnsupportedFileType
    ensures ProcessImage("a.jpg/readme", decoded, tolerance) == UnsupportedFileType
    ensures ProcessImage("archive.png.gz", decoded, tolerance) == UnsupportedFileType
    ensures ProcessImage("IMG.WEBP", decoded, tolerance) != UnsupportedFileType
  {
    NotesUnsupported();
    DirectoryNameUnsupported();
    ArchiveUnsupported();
    UpperCaseWebpSupported();
  }

  /** At tolerance 5 a 952×932 image matches no ratio and nothing is written. */
  lemma NothingWrittenWithoutRatio(img: Image)
    requires img.width == 952 && img.height == 932
    ensures ProcessImage("x.png", Some(img), 5) == NoSuitableRatio
  {
    FindBestTooTight952x932();
    ExtAfterDot("x", "png");
    assert "x" + ['.'] + "png" == "x.png";
    assert Ext("x.png") == ".png";
    ToLowerKeepsLowerText(".png");
  }
}
