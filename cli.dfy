/**
 * internal/cli/blur.go `PerformBlurOnImage`, reduced to its decisions: the
 * file-existence check, the extension test, the choice of blur action, the
 * output file name and the choice of encoder. File-system calls, decoding
 * and encoding are left to the caller: their results are parameters.
 */
module Cli {
  import opened Wrappers
  import opened Blur

  // ----- the string functions the handler calls -----

  /** `unicode.ToLower` restricted to ASCII: 'A'..'Z' become 'a'..'z'. */
  function LowerChar(c: char): (d: char)
    ensures 'A' <= c <= 'Z' ==> 'a' <= d <= 'z' && d as int - c as int == 32
    ensures !('A' <= c <= 'Z') ==> d == c
  {
    if 'A' <= c <= 'Z' then (c as int + 32) as char else c
  }

  /** `strings.ToLower` on ASCII text: every letter lower-cased, nothing else changed. */
  function ToLower(s: string): (r: string)
    ensures |r| == |s|
    ensures forall i :: 0 <= i < |s| ==> r[i] == LowerChar(s[i])
  {
    if s == [] then [] else [LowerChar(s[0])] + ToLower(s[1..])
  }

  /** Lower-casing twice is lower-casing once. */
  lemma {:induction false} ToLowerIdempotent(s: string)
    ensures ToLower(ToLower(s)) == ToLower(s)
  {
    var once := ToLower(s);
    assert forall i :: 0 <= i < |once| ==> LowerChar(once[i]) == once[i];
  }

  /** sub occurs in s starting at index k. */
  predicate OccursAt(s: string, sub: string, k: int)
  {
    0 <= k && k + |sub| <= |s| && s[k..k + |sub|] == sub
  }

  /** The first occurrence of sub in s at index k or later, or -1. */
  function IndexFrom(s: string, sub: string, k: nat): (r: int)
    decreases |s| - k
    ensures r == -1 || (k <= r && OccursAt(s, sub, r))
    ensures r == -1 ==> forall m :: k <= m ==> !OccursAt(s, sub, m)
    ensures r >= 0 ==> forall m :: k <= m < r ==> !OccursAt(s, sub, m)
  {
    if k + |sub| > |s| then -1
    else if s[k..k + |sub|] == sub then k
    else IndexFrom(s, sub, k + 1)
  }

  /** `strings.Index`: the first index at which sub occurs in s, or -1; the empty string occurs at 0. */
  function IndexOf(s: string, sub: string): (r: int)
    ensures r == -1 <==> forall m :: !OccursAt(s, sub, m)
    ensures r != -1 ==> OccursAt(s, sub, r) && forall m :: 0 <= m < r ==> !OccursAt(s, sub, m)
  {
    IndexFrom(s, sub, 0)
  }

  /** `strings.Split(name, ".")[0]`: the name up to its first '.', or all of it. */
  function BeforeFirstDot(name: string): (r: string)
    ensures |r| <= |name| && r == name[..|r|]
    ensures '.' !in r
    ensures |r| < |name| ==> name[|r|] == '.'
  {
    if name == [] || name[0] == '.' then [] else [name[0]] + BeforeFirstDot(name[1..])
  }

  // ----- the handler's decisions -----

  /** `strings.Join([]string{".jpg", ".jpeg", ".png"}, "")`. */
  const SupportedExtensions: string := ".jpg.jpeg.png"

  /** The extension test: the lower-cased extension must occur somewhere in the joined list. */
  predicate ExtensionSupported(fileExt: string)
  {
    IndexOf(SupportedExtensions, fileExt) != -1
  }

  /** The test accepts exactly the substrings of ".jpg.jpeg.png", not just the three extensions. */
  lemma ExtensionSupportedIffSubstring(fileExt: string)
    ensures ExtensionSupported(fileExt) <==> exists m :: OccursAt(SupportedExtensions, fileExt, m)
  {
  }

  /** The three intended extensions pass; so do a missing extension and fragments such as ".jp" or "g.jp". */
  lemma ExtensionExamples()
    ensures ExtensionSupported(".jpg") && ExtensionSupported(".jpeg") && ExtensionSupported(".png")
    ensures ExtensionSupported("") && ExtensionSupported(".jp") && ExtensionSupported(".pn") && ExtensionSupported("g.jp")
    ensures ExtensionSupported(ToLower(".JPG"))
  {
    assert OccursAt(SupportedExtensions, ".jpg", 0);
    assert OccursAt(SupportedExtensions, ".jpeg", 4);
    assert OccursAt(SupportedExtensions, ".png", 9);
    assert OccursAt(SupportedExtensions, "", 0);
    assert OccursAt(SupportedExtensions, ".jp", 0);
    assert OccursAt(SupportedExtensions, ".pn", 9);
    assert OccursAt(SupportedExtensions, "g.jp", 3);
    assert ToLower(".JPG") == ".jpg";
  }

  /** An extension holding a character the joined list lacks is rejected. */
  lemma ExtensionRejected(fileExt: string, c: char)
    requires c in fileExt && c !in SupportedExtensions
    ensures !ExtensionSupported(fileExt)
  {
    var k :| 0 <= k < |fileExt| && fileExt[k] == c;
    forall m | 0 <= m && m + |fileExt| <= |SupportedExtensions|
      ensures !OccursAt(SupportedExtensions, fileExt, m)
    {
      assert SupportedExtensions[m + k] in SupportedExtensions;
      assert SupportedExtensions[m..m + |fileExt|][k] != fileExt[k];
    }
  }

  /** ".gif" and ".bmp" are rejected. */
  lemma GifAndBmpRejected()
    ensures !ExtensionSupported(".gif") && !ExtensionSupported(".bmp")
  {
    ExtensionRejected(".gif", 'i');
    ExtensionRejected(".bmp", 'b');
  }

  /** The action a kind selects (`imaging.Blur`), with the sigma a Gaussian action carries. */
  datatype BlurKind = MeanBlur | GaussianBlur(sigma: real)

  /**
   * The two `if` statements on the kind: "mean" and "gaussian" select an
   * action, compared exactly; any other kind leaves `blurAction` nil (None).
   */
  function SelectBlurAction(blurKind: string, sigma: real): (r: Option<BlurKind>)
    ensures r == Some(MeanBlur) <==> blurKind == "mean"
    ensures r == Some(GaussianBlur(sigma)) <==> blurKind == "gaussian"
    ensures r.None? <==> blurKind != "mean" && blurKind != "gaussian"
  {
    if blurKind == "gaussian" then Some(GaussianBlur(sigma))
    else if blurKind == "mean" then Some(MeanBlur)
    else None
  }

  /** Matching is case-sensitive: "Mean" and "GAUSSIAN" select nothing. */
  lemma KindMatchIsCaseSensitive(sigma: real)
    ensures SelectBlurAction("Mean", sigma).None? && SelectBlurAction("GAUSSIAN", sigma).None?
  {
  }

  /** The created file: `fmt.Sprintf("%s/%s-blur%s", folderPath, fileName, fileExt)`. */
  function OutputPath(folderPath: string, baseName: string, fileExt: string): string
  {
    folderPath + "/" + BeforeFirstDot(baseName) + "-blur" + fileExt
  }

  /** Every dot of the base name from the first one on is dropped: "a.b.png" in "d" becomes "d/a-blur.png". */
  lemma OutputPathExample()
    ensures OutputPath("d", "a.b.png", ".png") == "d/a-blur.png"
  {
    assert BeforeFirstDot("a.b.png") == "a" + BeforeFirstDot(".b.png");
  }

  /** The two encoders the switch can call. */
  datatype Encoder = Jpeg | Png

  /**
   * The switch on the extension: ".jpg" is encoded as JPEG and ".png" as
   * PNG; the empty `case ".jpeg":` does not fall through, so ".jpeg", like
   * every other accepted extension, encodes nothing.
   */
  function EncoderFor(fileExt: string): (r: Option<Encoder>)
    ensures r == Some(Jpeg) <==> fileExt == ".jpg"
    ensures r == Some(Png) <==> fileExt == ".png"
    ensures r.None? <==> fileExt != ".jpg" && fileExt != ".png"
  {
    if fileExt == ".jpeg" then None
    else if fileExt == ".jpg" then Some(Jpeg)
    else if fileExt == ".png" then Some(Png)
    else None
  }

  /** ".jpeg" passes the extension test but is never encoded: the output file is created and stays empty. */
  lemma JpegSpellingIsNotEncoded()
    ensures ExtensionSupported(".jpeg") && EncoderFor(".jpeg").None?
  {
    ExtensionExamples();
  }

  /** How the handler ends. */
  datatype HandlerResult =
    | FileDoesNotExist
    | ExtensionNotSupported(fileExt: string)
    | BlurError(error: KernelError)
    | BlurPanic(cause: RuntimePanic)
    | OutputCreated(path: string, encoder: Option<Encoder>)

  /**
   * `PerformBlurOnImage`. `fileExists` is the `os.Stat` check, `rawExt` is
   * `filepath.Ext` of the path, `folderPath` and `baseName` are
   * `filepath.Dir` and `filepath.Base` of it, and `blur` is what the
   * selected action's `Blur` ends in on the decoded image.
   */
  function PerformBlurOnImage(fileExists: bool, rawExt: string, folderPath: string, baseName: string,
                              blurKind: string, sigma: real, blur: BlurKind -> BlurOutcome): (r: HandlerResult)
    ensures !fileExists ==> r == FileDoesNotExist
    ensures fileExists && !ExtensionSupported(ToLower(rawExt)) ==> r == ExtensionNotSupported(ToLower(rawExt))
    ensures r.ExtensionNotSupported? ==> !ExtensionSupported(r.fileExt) && |r.fileExt| == |rawExt|
    ensures r.BlurError? ==> SelectBlurAction(blurKind, sigma).Some? && blur(SelectBlurAction(blurKind, sigma).value) == Failed(r.error)
    ensures r.OutputCreated? ==> r.encoder == EncoderFor(ToLower(rawExt))
  {
    if !fileExists then FileDoesNotExist
    else
      var fileExt := ToLower(rawExt);
      if !ExtensionSupported(fileExt) then ExtensionNotSupported(fileExt)
      else match SelectBlurAction(blurKind, sigma)
        case None => BlurPanic(NilBlurAction)
        case Some(action) =>
          match blur(action)
          case Failed(e) => BlurError(e)
          case Panicked(c) => BlurPanic(c)
          case Blurred(_) => OutputCreated(OutputPath(folderPath, baseName, fileExt), EncoderFor(fileExt))
  }

  /**
   * An output file is created exactly when the file exists, its lower-cased
   * extension passes the test, the kind names an action and that action's
   * blur returned without an error; it is then named after the base name and
   * the lower-cased extension.
   */
  lemma OutputCreatedIff(fileExists: bool, rawExt: string, folderPath: string, baseName: string,
                         blurKind: string, sigma: real, blur: BlurKind -> BlurOutcome)
    ensures PerformBlurOnImage(fileExists, rawExt, folderPath, baseName, blurKind, sigma, blur).OutputCreated? <==>
              fileExists && ExtensionSupported(ToLower(rawExt)) && SelectBlurAction(blurKind, sigma).Some? &&
              blur(SelectBlurAction(blurKind, sigma).value).Blurred?
    ensures PerformBlurOnImage(fileExists, rawExt, folderPath, baseName, blurKind, sigma, blur).OutputCreated? ==>
              PerformBlurOnImage(fileExists, rawExt, folderPath, baseName, blurKind, sigma, blur) ==
                OutputCreated(folderPath + "/" + BeforeFirstDot(baseName) + "-blur" + ToLower(rawExt),
                              EncoderFor(ToLower(rawExt)))
  {
  }

  /** A blur error is returned before any output file is created, whatever the kind and the file. */
  lemma BlurErrorCreatesNoFile(fileExists: bool, rawExt: string, folderPath: string, baseName: string,
                               blurKind: string, sigma: real, blur: BlurKind -> BlurOutcome)
    requires fileExists && ExtensionSupported(ToLower(rawExt)) && SelectBlurAction(blurKind, sigma).Some?
    requires blur(SelectBlurAction(blurKind, sigma).value).Failed?
    ensures PerformBlurOnImage(fileExists, rawExt, folderPath, baseName, blurKind, sigma, blur) ==
              BlurError(blur(SelectBlurAction(blurKind, sigma).value).error)
  {
  }

  /** An unknown kind reaches the call on the nil action after both checks pass. */
  lemma UnknownKindPanics(rawExt: string, folderPath: string, baseName: string, blurKind: string, sigma: real,
                          blur: BlurKind -> BlurOutcome)
    requires ExtensionSupported(ToLower(rawExt)) && blurKind != "mean" && blurKind != "gaussian"
    ensures PerformBlurOnImage(true, rawExt, folderPath, baseName, blurKind, sigma, blur) == BlurPanic(NilBlurAction)
  {
  }
}
