/**
 * The request-handling core of the recognition web server (app.py):
 * which uploads are accepted, in what order the rejections are decided,
 * and how the predicted label is chosen from the classifier's outputs.
 * The HTTP layer, file storage and the network itself are abstracted away:
 * the uploaded form fields are a map from field name to file name, and the
 * classifier's outputs are a sequence of values under an ordering.
 */
module Upload {

  /** Extensions an upload may carry, compared after lower-casing. */
  const AllowedExtensions: set<string> := {"png", "jpg", "jpeg"}

  /** The ten KMNIST labels, in the order of the network's outputs. */
  const Classes: seq<string> := ["お", "き", "す", "つ", "な", "は", "ま", "や", "れ", "を"]

  /** Number of outputs of the last fully connected layer. */
  const NumOutputs: nat := 10

  // ---------------------------------------------------------------------
  // File-name handling: str.rfind, str.rsplit(sep, 1), str.lower
  // ---------------------------------------------------------------------

  /** Index of the last occurrence of `c` in `s`, or -1 when there is none. */
  function RFind(s: string, c: char): (i: int)
    ensures -1 <= i < |s|
    ensures i == -1 <==> c !in s
    ensures 0 <= i ==> s[i] == c && c !in s[i + 1..]
  {
    if s == [] then -1
    else if s[|s| - 1] == c then
      |s| - 1
    else
      var i := RFind(s[..|s| - 1], c);
      assert s == s[..|s| - 1] + [s[|s| - 1]];
      assert 0 <= i ==> s[i + 1..] == s[..|s| - 1][i + 1..] + [s[|s| - 1]];
      i
  }

  /**
   * Splitting once at the last separator: the whole string when `sep` does
   * not occur, otherwise the text before and the text after the last `sep`.
   */
  function RSplitOnce(s: string, sep: char): (parts: seq<string>)
    ensures sep !in s ==> parts == [s]
    ensures sep in s ==> |parts| == 2 && parts[0] + [sep] + parts[1] == s && sep !in parts[1]
  {
    var i := RFind(s, sep);
    if i < 0 then [s]
    else
      assert s == s[..i] + [sep] + s[i + 1..];
      [s[..i], s[i + 1..]]
  }

  /** Joining a stem and a separator-free suffix, then splitting at the last separator, gives both back. */
  lemma RSplitOnceOfJoin(stem: string, sep: char, suffix: string)
    requires sep !in suffix
    ensures RSplitOnce(stem + [sep] + suffix, sep) == [stem, suffix]
  {
    var s := stem + [sep] + suffix;
    assert s[|stem|] == sep;
    var i := RFind(s, sep);
    if i > |stem| {
      assert false;
    } else if i < |stem| {
      assert false;
    }
    assert s[..i] == stem;
    assert s[i + 1..] == suffix;
  }

  /** ASCII lower-casing of one character; every other character is left alone. */
  function LowerChar(c: char): (r: char)
    ensures !('A' <= r <= 'Z')
    ensures !('A' <= c <= 'Z') ==> r == c
    ensures 'A' <= c <= 'Z' ==> 'a' <= r <= 'z' && r as int - 'a' as int == c as int - 'A' as int
  {
    if 'A' <= c <= 'Z' then (c as int + 32) as char else c
  }

  /** Lower-casing of a string, character by character. */
  function Lower(s: string): (r: string)
    ensures |r| == |s|
    ensures forall i :: 0 <= i < |s| ==> !('A' <= r[i] <= 'Z')
    ensures forall i :: 0 <= i < |s| && !('A' <= s[i] <= 'Z') ==> r[i] == s[i]
    ensures forall i :: 0 <= i < |s| && 'A' <= s[i] <= 'Z' ==> r[i] as int == s[i] as int + 32
  {
    seq(|s|, i requires 0 <= i < |s| => LowerChar(s[i]))
  }

  /** Lower-casing commutes with dropping a prefix. */
  lemma LowerSuffix(s: string, k: nat)
    requires k <= |s|
    ensures Lower(s[k..]) == Lower(s)[k..]
  {
  }

  /** `filename` has a '.' and the text after its last '.', lower-cased, is an allowed extension. */
  predicate AllowedFile(filename: string)
    ensures AllowedFile(filename) <==>
      0 <= RFind(filename, '.') && Lower(filename[RFind(filename, '.') + 1..]) in AllowedExtensions
    ensures AllowedFile(filename) ==> 4 <= |filename|
  {
    if '.' in filename then
      var ext := RSplitOnce(filename, '.')[1];
      assert ext == filename[RFind(filename, '.') + 1..];
      assert forall e :: e in AllowedExtensions ==> 3 <= |e|;
      Lower(ext) in AllowedExtensions
    else
      false
  }

  /**
   * A file name decomposes as stem + "." + extension with a dot-free extension,
   * and only that extension decides: the stem (dots in it, or none at all) does not matter.
   */
  lemma AllowedFileSplit(stem: string, ext: string)
    requires '.' !in ext
    ensures AllowedFile(stem + "." + ext) <==> Lower(ext) in AllowedExtensions
  {
    RSplitOnceOfJoin(stem, '.', ext);
  }

  /** A name without any '.' (the empty name among them) is never allowed. */
  lemma NoDotNotAllowed(filename: string)
    requires '.' !in filename
    ensures !AllowedFile(filename)
  {
  }

  /** The lower-case form of a character is the letter `lo` exactly when the character is `lo` or its upper-case form. */
  lemma LowerCharIs(c: char, lo: char)
    requires 'a' <= lo <= 'z'
    ensures LowerChar(c) == lo <==> c == lo || c as int == lo as int - 32
  {
  }

  /**
   * The raw extensions that pass: exactly png, jpg and jpeg spelled in any mix
   * of upper and lower case, and nothing else (no other length, no other letter).
   */
  lemma AllowedExtensionsExactly(ext: string)
    ensures Lower(ext) in AllowedExtensions <==>
      || (|ext| == 3 && ext[0] in "pP" && ext[1] in "nN" && ext[2] in "gG")
      || (|ext| == 3 && ext[0] in "jJ" && ext[1] in "pP" && ext[2] in "gG")
      || (|ext| == 4 && ext[0] in "jJ" && ext[1] in "pP" && ext[2] in "eE" && ext[3] in "gG")
  {
    var l := Lower(ext);
    if |ext| == 3 {
      LowerCharIs(ext[0], 'p');
      LowerCharIs(ext[0], 'j');
      LowerCharIs(ext[1], 'n');
      LowerCharIs(ext[1], 'p');
      LowerCharIs(ext[2], 'g');
      assert l == "png" <==> l[0] == 'p' && l[1] == 'n' && l[2] == 'g';
      assert l == "jpg" <==> l[0] == 'j' && l[1] == 'p' && l[2] == 'g';
    } else if |ext| == 4 {
      LowerCharIs(ext[0], 'j');
      LowerCharIs(ext[1], 'p');
      LowerCharIs(ext[2], 'e');
      LowerCharIs(ext[3], 'g');
      assert l == "jpeg" <==> l[0] == 'j' && l[1] == 'p' && l[2] == 'e' && l[3] == 'g';
    }
  }

  /** Two strings that match position by position once lower-cased have their last '.' at the same place. */
  lemma {:induction false} RFindDotIgnoresCase(f: string, g: string)
    requires |f| == |g|
    requires forall i :: 0 <= i < |f| ==> LowerChar(f[i]) == LowerChar(g[i])
    ensures RFind(f, '.') == RFind(g, '.')
  {
    if f != [] {
      var n := |f| - 1;
      assert f[n] == '.' <==> g[n] == '.' by {
        assert LowerChar(f[n]) == LowerChar(g[n]);
      }
      if f[n] != '.' {
        RFindDotIgnoresCase(f[..n], g[..n]);
      }
    }
  }

  /** Two strings that agree up to ASCII case have the same lower-cased suffixes. */
  lemma LowerSuffixesAgree(f: string, g: string, k: nat)
    requires |f| == |g| && k <= |f|
    requires forall i :: 0 <= i < |f| ==> LowerChar(f[i]) == LowerChar(g[i])
    ensures Lower(f[k..]) == Lower(g[k..])
  {
    assert Lower(f) == Lower(g);
    LowerSuffix(f, k);
    LowerSuffix(g, k);
  }

  /** The check ignores case: names that agree up to ASCII case are both allowed or both refused. */
  lemma AllowedFileIgnoresCase(f: string, g: string)
    requires |f| == |g|
    requires forall i :: 0 <= i < |f| ==> LowerChar(f[i]) == LowerChar(g[i])
    ensures AllowedFile(f) <==> AllowedFile(g)
  {
    RFindDotIgnoresCase(f, g);
    var i := RFind(f, '.');
    if 0 <= i {
      LowerSuffixesAgree(f, g, i + 1);
      assert AllowedFile(f) <==> Lower(f[i + 1..]) in AllowedExtensions;
      assert AllowedFile(g) <==> Lower(g[i + 1..]) in AllowedExtensions;
    }
  }

  /** Lower-casing the whole name first does not change the verdict. */
  lemma AllowedFileOfLower(filename: string)
    ensures AllowedFile(Lower(filename)) <==> AllowedFile(filename)
  {
    AllowedFileIgnoresCase(Lower(filename), filename);
  }

  /**
   * Sample extensions, as AllowedFileSplit reduces every name to its last
   * extension: upper- and mixed-case spellings of png, jpg and jpeg pass, while
   * an empty extension (a trailing '.'), exe, gif and the near miss jpe do not.
   */
  lemma ExtensionExamples()
    ensures Lower("JPG") in AllowedExtensions && Lower("Png") in AllowedExtensions
    ensures Lower("png") in AllowedExtensions && Lower("jpeg") in AllowedExtensions
    ensures Lower("") !in AllowedExtensions && Lower("exe") !in AllowedExtensions
    ensures Lower("gif") !in AllowedExtensions && Lower("jpe") !in AllowedExtensions
  {
    assert Lower("JPG") == "jpg";
    assert Lower("Png") == "png";
    assert Lower("jpeg") == "jpeg";
    assert Lower("png") == "png";
    assert Lower("exe")[0] == 'e';
    assert Lower("gif")[0] == 'g';
    assert Lower("jpe")[2] == 'e';
  }

  // Whole file names. Each verdict comes from one extension verdict and the
  // split at the last dot, one name per lemma.

  /** The verdict on a name spelled out as stem, '.', and a dot-free extension. */
  lemma NameVerdict(name: string, stem: string, ext: string)
    requires '.' !in ext && stem + "." + ext == name
    ensures AllowedFile(name) <==> Lower(ext) in AllowedExtensions
  {
    AllowedFileSplit(stem, ext);
  }

  lemma UpperJpgAllowed()
    ensures AllowedFile("X.JPG")
  {
    ExtensionExamples();
    NameVerdict("X.JPG", "X", "JPG");
  }

  lemma MixedCasePngAllowed()
    ensures AllowedFile("y.Png")
  {
    ExtensionExamples();
    NameVerdict("y.Png", "y", "Png");
  }

  /** Only the last extension counts: the earlier ".tar" is part of the stem. */
  lemma DottedStemAllowed()
    ensures AllowedFile("a.tar.png")
  {
    ExtensionExamples();
    NameVerdict("a.tar.png", "a.tar", "png");
  }

  /** A name that is nothing but an extension still passes. */
  lemma EmptyStemAllowed()
    ensures AllowedFile(".png")
  {
    ExtensionExamples();
    NameVerdict(".png", "", "png");
  }

  /** An allowed extension followed by another one does not pass. */
  lemma HiddenExtensionRefused()
    ensures !AllowedFile("a.png.exe")
  {
    ExtensionExamples();
    NameVerdict("a.png.exe", "a.png", "exe");
  }

  /** A trailing dot leaves an empty extension, which is refused. */
  lemma TrailingDotRefused()
    ensures !AllowedFile("x.")
  {
    ExtensionExamples();
    NameVerdict("x.", "x", "");
  }

  // ---------------------------------------------------------------------
  // The early-return chain of the upload route
  // ---------------------------------------------------------------------

  /** What the upload route decides before anything is written to disk. */
  datatype Outcome = NoFilePart | NoSelectedFile | InvalidType | Accept

  /**
   * The three checks of the upload route, in their order: the form must
   * have a part named "file", that part must have a non-empty file name,
   * and the name must pass AllowedFile. `files` maps each file field of the
   * request to the name of the file sent in it.
   */
  function ValidateUpload(files: map<string, string>): (o: Outcome)
    ensures "file" !in files ==> o == NoFilePart
    ensures "file" in files && files["file"] == "" ==> o == NoSelectedFile
    ensures o == Accept <==> "file" in files && AllowedFile(files["file"])
    ensures o == InvalidType <==> "file" in files && files["file"] != "" && !AllowedFile(files["file"])
  {
    if "file" !in files then NoFilePart
    else if files["file"] == "" then NoSelectedFile
    else if AllowedFile(files["file"]) then Accept
    else InvalidType
  }

  /** The response the route sends: a client error, or the page showing the predicted label. */
  datatype Response = Rejected(status: int, message: string) | Predicted(className: string)

  /** A total preorder: any two values compare, and comparison chains. */
  ghost predicate TotalPreorder<T(!new)>(le: (T, T) -> bool)
  {
    && (forall x, y :: le(x, y) || le(y, x))
    && (forall x, y, z :: le(x, y) && le(y, z) ==> le(x, z))
  }

  /** `k` is the first position of a largest entry of `s`. */
  ghost predicate IsFirstMax<T>(s: seq<T>, le: (T, T) -> bool, k: int)
  {
    && 0 <= k < |s|
    && (forall j :: 0 <= j < |s| ==> le(s[j], s[k]))
    && (forall j :: 0 <= j < k ==> !le(s[k], s[j]))
  }

  /** Position of the largest entry; on ties, the first of them. */
  function ArgMax<T(!new)>(s: seq<T>, le: (T, T) -> bool): (k: nat)
    requires |s| > 0
    requires TotalPreorder(le)
    ensures IsFirstMax(s, le, k)
  {
    if |s| == 1 then 0
    else
      var k := ArgMax(s[..|s| - 1], le);
      if le(s[|s| - 1], s[k]) then k else |s| - 1
  }

  /** The label shown to the user: the class at the position of the largest softmax probability. */
  function PredictedClass<T(!new)>(probabilities: seq<T>, le: (T, T) -> bool): (className: string)
    requires |probabilities| == NumOutputs
    requires TotalPreorder(le)
    ensures className in Classes
    ensures exists k :: IsFirstMax(probabilities, le, k) && k < |Classes| && className == Classes[k]
  {
    var k := ArgMax(probabilities, le);
    Classes[k]
  }

  /**
   * The upload route up to the rendered result: a rejection with status
   * 400 and its message, or the predicted label. `probabilities` stands for
   * what the classifier yields for the saved image.
   */
  function HandleUpload<T(!new)>(files: map<string, string>, probabilities: seq<T>, le: (T, T) -> bool): (resp: Response)
    requires |probabilities| == NumOutputs
    requires TotalPreorder(le)
    ensures resp.Predicted? <==> "file" in files && AllowedFile(files["file"])
    ensures resp.Predicted? ==> resp.className in Classes
    ensures resp.Predicted? ==> resp.className == PredictedClass(probabilities, le)
    ensures resp.Predicted? ==>
      exists k :: IsFirstMax(probabilities, le, k) && k < |Classes| && resp.className == Classes[k]
    ensures resp.Rejected? ==> resp.status == 400
    ensures resp == Rejected(400, "No file part") <==> "file" !in files
    ensures resp == Rejected(400, "No selected file") <==> "file" in files && files["file"] == ""
    ensures resp == Rejected(400, "Invalid file type") <==>
      "file" in files && files["file"] != "" && !AllowedFile(files["file"])
  {
    match ValidateUpload(files)
    case NoFilePart => Rejected(400, "No file part")
    case NoSelectedFile => Rejected(400, "No selected file")
    case InvalidType => Rejected(400, "Invalid file type")
    case Accept => Predicted(PredictedClass(probabilities, le))
  }
}
