/**
 * helpers.py: the upload-extension check, the admin guard and the date formatter.
 */
module Helpers {
  import opened Wrappers

  /** The application's ALLOWED_EXTENSIONS setting. */
  const AllowedExtensions: set<string> := {"png", "jpg", "jpeg", "gif"}

  /** `str.lower()` on one character, for the ASCII letters. */
  function LowerChar(c: char): (r: char)
    ensures r == '.' <==> c == '.'
  {
    if 'A' <= c <= 'Z' then (c as int + 32) as char else c
  }

  function Lower(s: string): (r: string)
    ensures |r| == |s|
    ensures forall i :: 0 <= i < |s| ==> r[i] == LowerChar(s[i])
  {
    if s == [] then [] else [LowerChar(s[0])] + Lower(s[1..])
  }

  /** Index of the last '.' in `s`, if any. */
  function LastDot(s: string): (r: Option<nat>)
    ensures r.None? <==> '.' !in s
    ensures r.Some? ==> r.value < |s| && s[r.value] == '.' && '.' !in s[r.value + 1..]
  {
    if s == [] then None
    else if s[|s| - 1] == '.' then Some(|s| - 1)
    else
      var r := LastDot(s[..|s| - 1]);
      assert r.Some? ==> s[r.value + 1..] == s[..|s| - 1][r.value + 1..] + [s[|s| - 1]];
      r
  }

  /** `filename.rsplit('.', 1)[1]`: the part after the last dot, when there is a dot. */
  function Extension(filename: string): (r: Option<string>)
    ensures r.None? <==> '.' !in filename
    ensures r.Some? ==>
              && |r.value| < |filename|
              && filename[|filename| - |r.value| - 1] == '.'
              && r.value == filename[|filename| - |r.value|..]
              && '.' !in r.value
  {
    match LastDot(filename)
    case None => None
    case Some(i) => Some(filename[i + 1..])
  }

  /**
   * allowed_file: the name has a dot and its last suffix, lower-cased, is an
   * allowed extension; so an accepted name has a dot and at least four characters.
   */
  predicate AllowedFile(filename: string)
    ensures AllowedFile(filename) ==> '.' in filename && |filename| >= 4
  {
    match Extension(filename)
    case None => false
    case Some(ext) => Lower(ext) in AllowedExtensions
  }

  /** Splitting at the last dot undoes joining a stem and a dot-free suffix with a dot. */
  lemma ExtensionOfJoin(stem: string, ext: string)
    requires '.' !in ext
    ensures Extension(stem + "." + ext) == Some(ext)
  {
    var f := stem + "." + ext;
    assert f[|stem|] == '.';
    assert forall k :: |stem| < k < |f| ==> f[k] == ext[k - |stem| - 1];
    var e := Extension(f).value;
    assert |e| == |ext|;
    assert f[|stem| + 1..] == ext;
  }

  /** Position `i` holds a dot followed by a dot-free suffix that is an allowed extension. */
  predicate AllowedSuffixAt(filename: string, i: int)
  {
    0 <= i < |filename| && filename[i] == '.' && '.' !in filename[i + 1..]
    && Lower(filename[i + 1..]) in AllowedExtensions
  }

  /** allowed_file holds exactly when some dot is followed by a dot-free suffix that is allowed. */
  lemma AllowedFileIff(filename: string)
    ensures AllowedFile(filename) <==> exists i :: AllowedSuffixAt(filename, i)
  {
    if AllowedFile(filename) {
      var ext := Extension(filename).value;
      var i := |filename| - |ext| - 1;
      assert filename[i + 1..] == ext;
      assert AllowedSuffixAt(filename, i);
    }
    if exists i :: AllowedSuffixAt(filename, i) {
      var i :| AllowedSuffixAt(filename, i);
      AllowedSuffixDecides(filename, i);
    }
  }

  lemma AllowedSuffixDecides(filename: string, i: int)
    requires AllowedSuffixAt(filename, i)
    ensures AllowedFile(filename)
  {
    assert filename == filename[..i] + "." + filename[i + 1..];
    ExtensionOfJoin(filename[..i], filename[i + 1..]);
  }

  /** A name without a dot, and a name ending in a dot (empty suffix), are refused. */
  lemma AllowedFileNeedsSuffix(filename: string)
    ensures '.' !in filename ==> !AllowedFile(filename)
    ensures |filename| > 0 && filename[|filename| - 1] == '.' ==> !AllowedFile(filename)
  {
    if |filename| > 0 && filename[|filename| - 1] == '.' {
      assert filename == filename[..|filename| - 1] + "." + "";
      ExtensionOfJoin(filename[..|filename| - 1], "");
    }
  }

  /** The check ignores case: an upper-case allowed suffix is accepted. */
  lemma UpperCaseSuffixAccepted()
    ensures AllowedFile("PHOTO.PNG")
  {
    ExtensionOfJoin("PHOTO", "PNG");
    var l := Lower("PNG");
    assert l[0] == 'p' && l[1] == 'n' && l[2] == 'g';
    assert l == "png";
  }

  /** Only the last suffix counts: an allowed inner suffix does not rescue a bad last one. */
  lemma InnerSuffixIgnored()
    ensures !AllowedFile("a.png.exe")
  {
    assert "a.png.exe" == "a.png" + "." + "exe";
    ExtensionOfJoin("a.png", "exe");
    var l := Lower("exe");
    assert l[0] == 'e' && l[1] == 'x' && l[2] == 'e';
    assert l == "exe";
  }

  /** Only the last suffix counts: a bad inner suffix does not spoil an allowed last one. */
  lemma LastSuffixDecides()
    ensures AllowedFile("a.exe.png")
  {
    assert "a.exe.png" == "a.exe" + "." + "png";
    ExtensionOfJoin("a.exe", "png");
    var m := Lower("png");
    assert m[0] == 'p' && m[1] == 'n' && m[2] == 'g';
    assert m == "png";
  }

  /** What admin_required decides from the session flag before any handler runs. */
  datatype Gate = Allow | RedirectToLogin(next: string)

  function CheckAdmin(loggedIn: bool, requestUrl: string): (g: Gate)
    ensures g.Allow? <==> loggedIn
    ensures g.RedirectToLogin? ==> g.next == requestUrl
  {
    if !loggedIn then RedirectToLogin(requestUrl) else Allow
  }

  /** A guarded handler either ran, giving its own result, or was replaced by a redirect to login. */
  datatype Guarded<+R> = Handled(result: R) | LoginRedirect(next: string)

  /** admin_required wrapped around a handler `handler` called with `args`. */
  function AdminRequired<A, R>(loggedIn: bool, requestUrl: string, handler: A -> R, args: A): (r: Guarded<R>)
    ensures !loggedIn ==> r == LoginRedirect(requestUrl)
    ensures loggedIn ==> r == Handled(handler(args))
  {
    match CheckAdmin(loggedIn, requestUrl)
    case RedirectToLogin(next) => LoginRedirect(next)
    case Allow => Handled(handler(args))
  }

  /** format_datetime: "" for a missing value, otherwise whatever `strftime` renders. */
  function FormatDatetime(value: Option<int>, strftime: int -> string): (r: string)
    ensures value.None? ==> r == ""
    ensures value.Some? ==> r == strftime(value.value)
  {
    match value
    case None => ""
    case Some(v) => strftime(v)
  }
}
