/** The upload filter: a file name is accepted when it has a dot and the
    text after its last dot, lower-cased, is one of the image extensions. */
module Upload {
  import opened Basics
  import opened Text

  const AllowedExtensions: set<string> := {"png", "jpg", "jpeg"}

  /** The position of the last `.` in `s`, if any. */
  function LastDot(s: string): (r: Option<nat>)
    ensures r.None? <==> '.' !in s
    ensures r.Some? ==> r.value < |s| && s[r.value] == '.' && '.' !in s[r.value + 1..]
    decreases |s|
  {
    if s == [] then None
    else if s[|s| - 1] == '.' then Some(|s| - 1)
    else
      var r := LastDot(s[..|s| - 1]);
      assert s == s[..|s| - 1] + [s[|s| - 1]];
      r
  }

  /** A dot with no dot after it is the last dot. */
  lemma LastDotUnique(s: string, i: nat)
    requires i < |s| && s[i] == '.' && '.' !in s[i + 1..]
    ensures LastDot(s) == Some(i)
  {
  }

  /** `filename.rsplit('.', 1)[1]`: the text after the last dot. */
  function Extension(s: string): (ext: string)
    requires '.' in s
    ensures '.' !in ext && |ext| < |s|
    ensures s[|s| - |ext| - 1] == '.' && s[|s| - |ext|..] == ext
  {
    s[LastDot(s).value + 1..]
  }

  /** `allowed_file`. */
  predicate AllowedFile(s: string) {
    '.' in s && Lower(Extension(s)) in AllowedExtensions
  }

  /** A name made of a stem, a dot and a dot-free extension is accepted
      exactly when the lower-cased extension is allowed; the stem does not
      matter, and may itself contain dots or be empty. */
  lemma AllowedFileSplit(stem: string, ext: string)
    requires '.' !in ext
    ensures AllowedFile(stem + "." + ext) <==> Lower(ext) in AllowedExtensions
  {
    var s := stem + "." + ext;
    assert s[|stem|] == '.';
    assert s[|stem| + 1..] == ext;
    LastDotUnique(s, |stem|);
  }

  /** The accepted names are exactly those of the form stem + "." + ext with
      a dot-free `ext` whose lower-case form is png, jpg or jpeg. */
  lemma AllowedFileIff(s: string)
    ensures AllowedFile(s) <==>
      exists stem, ext :: s == stem + "." + ext && '.' !in ext && Lower(ext) in AllowedExtensions
  {
    if AllowedFile(s) {
      var i := LastDot(s).value;
      assert s == s[..i] + "." + s[i + 1..];
    }
    if exists stem, ext :: s == stem + "." + ext && '.' !in ext && Lower(ext) in AllowedExtensions {
      var stem, ext :| s == stem + "." + ext && '.' !in ext && Lower(ext) in AllowedExtensions;
      AllowedFileSplit(stem, ext);
    }
  }

  /** A name without a dot is rejected. */
  lemma NoDotRejected(s: string)
    requires '.' !in s
    ensures !AllowedFile(s)
  {
  }

  /** The check ignores case: a name is accepted exactly when its
      lower-cased form is. */
  lemma AllowedFileCaseInsensitive(s: string)
    ensures AllowedFile(Lower(s)) <==> AllowedFile(s)
  {
    LowerKeepsDots(s);
    if '.' in s {
      LowerExtension(s);
      LowerIdempotent(Extension(s));
    }
  }

  /** The extension of the lower-cased name is the lower-cased extension. */
  lemma LowerExtension(s: string)
    requires '.' in s
    ensures '.' in Lower(s) && Extension(Lower(s)) == Lower(Extension(s))
  {
    LowerKeepsDots(s);
    var i := LastDot(s).value;
    var t := Lower(s);
    var ext := s[i + 1..];
    LowerSuffix(s, i + 1);
    LowerKeepsDots(ext);
    LastDotUnique(t, i);
  }

  /** Only the last extension counts: whatever the stem, an image with an
      extra inner extension ("a.exe.png") is accepted ... */
  lemma InnerExtensionIgnored(stem: string)
    ensures AllowedFile(stem + ".exe.png")
  {
    AllowedFileSplit(stem + ".exe", "png");
    assert stem + ".exe" + "." + "png" == stem + ".exe.png";
    LowerOfLowerCase("png");
  }

  /** ... and a disguised executable ("a.png.exe") is rejected. */
  lemma DisguisedExecutableRejected(stem: string)
    ensures !AllowedFile(stem + ".png.exe")
  {
    AllowedFileSplit(stem + ".png", "exe");
    assert stem + ".png" + "." + "exe" == stem + ".png.exe";
    LowerOfLowerCase("exe");
    assert "exe"[0] == 'e';
  }

  /** An empty stem is fine (".png"); an empty extension ("photo.") is not. */
  lemma EmptyPartExamples(stem: string)
    ensures AllowedFile(".png")
    ensures !AllowedFile(stem + ".")
  {
    AllowedFileSplit("", "png");
    assert "" + "." + "png" == ".png";
    LowerOfLowerCase("png");
    AllowedFileSplit(stem, "");
    assert stem + "." + "" == stem + ".";
  }

  /** Upper-case extensions are accepted ("PHOTO.JPEG"). */
  lemma UpperCaseExample(stem: string)
    ensures AllowedFile(stem + ".JPEG")
  {
    AllowedFileSplit(stem, "JPEG");
    assert stem + "." + "JPEG" == stem + ".JPEG";
    assert Lower("JPEG") == "jpeg";
  }
}
