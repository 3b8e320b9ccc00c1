/** The checks that the /predict handler runs on an upload before anything
    is stored or classified: the file-extension allow-set and the three
    ordered rejections. */
module Upload {
  import opened Text

  /** The fixed allow-set of extensions, compared after lower-casing. */
  const AllowedExtensions: set<string> := {"png", "jpg", "jpeg", "gif", "bmp", "webp"}

  /** Python's s.rsplit(sep, 1) for a one-character separator: a single part
      when sep does not occur, otherwise the text before and the text after
      the LAST occurrence of sep. */
  function RSplitOnce(s: string, sep: char): (parts: seq<string>)
    ensures |parts| == 1 || |parts| == 2
    ensures |parts| == 1 <==> sep !in s
    ensures |parts| == 1 ==> parts[0] == s
    ensures |parts| == 2 ==> s == parts[0] + [sep] + parts[1] && sep !in parts[1]
    decreases |s|
  {
    if s == [] then [s]
    else
      var init, last := s[..|s| - 1], s[|s| - 1];
      assert s == init + [last];
      if last == sep then [init, []]
      else
        var parts := RSplitOnce(init, sep);
        if |parts| == 1 then [s] else [parts[0], parts[1] + [last]]
  }

  /** allowed_file: the name contains a dot and the text after its last dot,
      lower-cased, is an allowed extension. The conjunction short-circuits,
      so the second part of the split is only taken when it exists. */
  function AllowedFile(filename: string): (ok: bool)
    ensures '.' !in filename ==> !ok
  {
    '.' in filename && Lower(RSplitOnce(filename, '.')[1]) in AllowedExtensions
  }

  /** Splitting p + "." + e at its last dot gives back p and e whenever e
      holds no dot, whatever p holds. */
  lemma {:induction false} RSplitOnceLast(p: string, e: string, sep: char)
    requires sep !in e
    ensures RSplitOnce(p + [sep] + e, sep) == [p, e]
    decreases |e|
  {
    var s := p + [sep] + e;
    if e != [] {
      var init := e[..|e| - 1];
      assert s[..|s| - 1] == p + [sep] + init;
      assert e == init + [e[|e| - 1]];
      RSplitOnceLast(p, init, sep);
    } else {
      assert s[..|s| - 1] == p;
    }
  }

  /** Only the last extension decides: for a final segment e without a dot,
      p + "." + e is allowed exactly when lower(e) is in the allow-set, so
      "a.png.exe" is refused and "a.exe.png" accepted. */
  lemma LastExtensionDecides(p: string, e: string)
    requires '.' !in e
    ensures AllowedFile(p + "." + e) <==> Lower(e) in AllowedExtensions
  {
    RSplitOnceLast(p, e, '.');
  }

  /** i is the position of the last dot of f. */
  predicate LastDotAt(f: string, i: int)
  {
    0 <= i < |f| && f[i] == '.' && '.' !in f[i + 1..]
  }

  /** The allow-rule stated on positions: the remainder after the last dot
      is, lower-cased, in the allow-set. */
  lemma AllowedFileExactly(f: string)
    ensures AllowedFile(f) <==> exists i :: LastDotAt(f, i) && Lower(f[i + 1..]) in AllowedExtensions
  {
    if AllowedFile(f) {
      var parts := RSplitOnce(f, '.');
      var i := |parts[0]|;
      assert f[i] == '.' && f[i + 1..] == parts[1];
      assert LastDotAt(f, i);
    }
    if i :| LastDotAt(f, i) && Lower(f[i + 1..]) in AllowedExtensions {
      assert f == f[..i] + "." + f[i + 1..];
      LastExtensionDecides(f[..i], f[i + 1..]);
    }
  }

  /** Letter case never changes the verdict: "X.JPG" and "x.jpg" agree. */
  lemma AllowedFileIgnoresCase(f: string, g: string)
    requires SameUpToCase(f, g)
    ensures AllowedFile(f) == AllowedFile(g)
  {
    // a dot sits at the same positions in both names
    forall j | 0 <= j < |f|
      ensures f[j] == '.' <==> g[j] == '.'
    {
      if f[j] == '.' { UncasedFixed(g[j], '.'); }
      if g[j] == '.' { UncasedFixed(f[j], '.'); }
    }
    if '.' in f {
      var parts := RSplitOnce(f, '.');
      var i := |parts[0]|;
      assert f == f[..i] + "." + f[i + 1..] && f[i + 1..] == parts[1];
      assert g == g[..i] + "." + g[i + 1..];
      assert '.' !in g[i + 1..] by {
        forall j | i + 1 <= j < |g| ensures g[j] != '.' {
          assert f[j] == f[i + 1..][j - i - 1];
        }
      }
      assert Lower(f[i + 1..]) == Lower(g[i + 1..]);
      LastExtensionDecides(f[..i], f[i + 1..]);
      LastExtensionDecides(g[..i], g[i + 1..]);
    } else {
      assert '.' !in g by {
        forall j | 0 <= j < |g| ensures g[j] != '.' { }
      }
    }
  }

  /** An empty stem is fine, an empty extension or a missing dot is not. */
  lemma DotEdgeCases()
    ensures AllowedFile(".png")
    ensures !AllowedFile("a.")
    ensures !AllowedFile("png")
  {
    assert ".png" == "" + "." + "png" && Lower("png") == "png";
    LastExtensionDecides("", "png");
    assert "a." == "a" + "." + "";
    LastExtensionDecides("a", "");
  }

  /** Only the text after the last dot counts. */
  lemma DoubleExtensionCases()
    ensures !AllowedFile("x.png.exe")
    ensures AllowedFile("x.exe.png")
  {
    assert Lower("exe") == "exe";
    assert "exe" !in AllowedExtensions;
    assert "x.png.exe" == "x.png" + "." + "exe";
    LastExtensionDecides("x.png", "exe");
    assert "x.exe.png" == "x.exe" + "." + "png" && Lower("png") == "png";
    LastExtensionDecides("x.exe", "png");
  }

  /** Upper-case extensions are accepted. */
  lemma UpperCaseCases()
    ensures AllowedFile("x.tar.PNG")
    ensures AllowedFile("X.JPG")
  {
    assert "x.tar.PNG" == "x.tar" + "." + "PNG" && Lower("PNG") == "png";
    LastExtensionDecides("x.tar", "PNG");
    assert "X.JPG" == "X" + "." + "JPG" && Lower("JPG") == "jpg";
    LastExtensionDecides("X", "JPG");
  }

  /** The multipart form as the handler sees it: each file field's name and
      the filename the browser sent with it. */
  datatype Request = Request(files: map<string, string>)

  /** The three rejections, in the order the handler tests them. */
  const NoFilePart := "No file part in request."
  const NoFileSelected := "No file selected."
  const UnsupportedFileType := "Unsupported file type. Please upload a PNG/JPG/GIF/BMP/WEBP."

  /** Either a flash message and a redirect home, or the go-ahead to store
      and classify the named upload. */
  datatype Decision = Reject(message: string) | Accept(filename: string)

  /** The validation prefix of the upload handler. */
  function Decide(req: Request): (d: Decision)
    ensures "image" !in req.files ==> d == Reject(NoFilePart)
    ensures "image" in req.files && req.files["image"] == "" ==> d == Reject(NoFileSelected)
    ensures "image" in req.files && req.files["image"] != "" && !AllowedFile(req.files["image"]) ==>
      d == Reject(UnsupportedFileType)
    ensures d.Accept? <==> "image" in req.files && req.files["image"] != "" && AllowedFile(req.files["image"])
    ensures d.Accept? ==> d.filename == req.files["image"]
  {
    if "image" !in req.files then Reject(NoFilePart)
    else
      var filename := req.files["image"];
      if filename == "" then Reject(NoFileSelected)
      else if !AllowedFile(filename) then Reject(UnsupportedFileType)
      else Accept(filename)
  }

  /** Every upload that gets past validation has a non-empty name whose
      text after the last dot is, lower-cased, in the allow-set. */
  lemma AcceptedHasAllowedExtension(req: Request)
    requires Decide(req).Accept?
    ensures var f := Decide(req).filename;
      f != "" && exists i :: LastDotAt(f, i) && Lower(f[i + 1..]) in AllowedExtensions
  {
    AllowedFileExactly(Decide(req).filename);
  }

  /** The rejection message names the first check that failed: the three
      messages are distinct, so a message determines the failed check. */
  lemma RejectionIdentifiesCheck(req: Request)
    requires Decide(req).Reject?
    ensures Decide(req).message == NoFilePart <==> "image" !in req.files
    ensures Decide(req).message == NoFileSelected <==> "image" in req.files && req.files["image"] == ""
    ensures Decide(req).message == UnsupportedFileType <==>
      "image" in req.files && req.files["image"] != "" && !AllowedFile(req.files["image"])
  {
  }
}
