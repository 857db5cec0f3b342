/**
 * forms.py: the three forms' field rules as functions from the submitted
 * values to the list of field-scoped errors, each paired with the validity
 * predicate it must agree with.
 *
 * Library checks that are not visible here enter as values: the e-mail syntax
 * verdict of the `Email()` validator is the boolean `emailOk`, and a date field
 * holds `None` when it was left empty or could not be parsed.
 */
module Forms {
  import opened Wrappers
  import opened Helpers

  datatype Field =
    | NameField | EmailField | PhoneField
    | UsernameField | PasswordField
    | TitleField | DescriptionField | PrizeField | ImageField | StartDateField | EndDateField

  datatype Problem = Required | BadLength | BadEmail | ImagesOnly | EndNotAfterStart | EndInPast

  datatype FieldError = FieldError(field: Field, problem: Problem)

  /** True when some error in `errors` is about `field`. */
  predicate Flags(errors: seq<FieldError>, field: Field)
  {
    exists i :: 0 <= i < |errors| && errors[i].field == field
  }

  /** The ASCII characters `str.strip` removes: tab to carriage return, the four separators 28..31, and space. */
  predicate IsSpace(c: char)
  {
    9 <= c as int <= 13 || 28 <= c as int <= 32
  }

  /** DataRequired on a string: it holds something besides whitespace. */
  predicate HasData(s: string)
  {
    exists i :: 0 <= i < |s| && !IsSpace(s[i])
  }

  /** The rule of one text field: DataRequired (when listed) and then Length(min, max). */
  predicate TextOk(s: string, required: bool, minLen: nat, maxLen: Option<nat>)
  {
    (!required || HasData(s)) && minLen <= |s| && (maxLen.None? || |s| <= maxLen.value)
  }

  /**
   * The validator chain of one text field. A failing DataRequired stops the
   * chain, so a blank field gets only the "required" message.
   */
  function TextErrors(field: Field, s: string, required: bool, minLen: nat, maxLen: Option<nat>): (r: seq<FieldError>)
    ensures r == [] <==> TextOk(s, required, minLen, maxLen)
    ensures forall i :: 0 <= i < |r| ==> r[i].field == field
    ensures required && !HasData(s) ==> r == [FieldError(field, Required)]
  {
    if required && !HasData(s) then [FieldError(field, Required)]
    else if |s| < minLen || (maxLen.Some? && |s| > maxLen.value) then [FieldError(field, BadLength)]
    else []
  }

  // ---------------------------------------------------------------- GiveawayEntryForm

  datatype EntryForm = EntryForm(name: string, email: string, phone: string)

  predicate NameOk(name: string) { TextOk(name, true, 2, Some(100)) }
  predicate EmailOk(email: string, emailOk: bool) { HasData(email) && emailOk && |email| <= 100 }
  predicate PhoneOk(phone: string) { TextOk(phone, false, 0, Some(20)) }

  /** GiveawayEntryForm accepts the submission. */
  predicate ValidEntry(f: EntryForm, emailOk: bool)
  {
    NameOk(f.name) && EmailOk(f.email, emailOk) && PhoneOk(f.phone)
  }

  /** DataRequired, then Email() and Length(max=100), which both run and both report. */
  function EmailErrors(email: string, emailOk: bool): (r: seq<FieldError>)
    ensures r == [] <==> EmailOk(email, emailOk)
    ensures forall i :: 0 <= i < |r| ==> r[i].field == EmailField
  {
    if !HasData(email) then [FieldError(EmailField, Required)]
    else
      (if emailOk then [] else [FieldError(EmailField, BadEmail)])
      + (if |email| > 100 then [FieldError(EmailField, BadLength)] else [])
  }

  /** The messages GiveawayEntryForm reports: one or more for every field that breaks its rule. */
  function EntryErrors(f: EntryForm, emailOk: bool): (r: seq<FieldError>)
    ensures r == [] <==> ValidEntry(f, emailOk)
    ensures Flags(r, NameField) <==> !NameOk(f.name)
    ensures Flags(r, EmailField) <==> !EmailOk(f.email, emailOk)
    ensures Flags(r, PhoneField) <==> !PhoneOk(f.phone)
    ensures forall i :: 0 <= i < |r| ==> r[i].field in {NameField, EmailField, PhoneField}
  {
    var n := TextErrors(NameField, f.name, true, 2, Some(100));
    var e := EmailErrors(f.email, emailOk);
    var p := TextErrors(PhoneField, f.phone, false, 0, Some(20));
    assert n != [] ==> (n + e + p)[0] == n[0];
    assert e != [] ==> (n + e + p)[|n|] == e[0];
    assert p != [] ==> (n + e + p)[|n| + |e|] == p[0];
    n + e + p
  }

  // ---------------------------------------------------------------- AdminLoginForm

  datatype LoginForm = LoginForm(username: string, password: string)

  predicate UsernameOk(username: string) { TextOk(username, true, 3, Some(64)) }
  predicate PasswordOk(password: string) { HasData(password) }

  /** AdminLoginForm accepts the submission. */
  predicate ValidLogin(f: LoginForm)
  {
    UsernameOk(f.username) && PasswordOk(f.password)
  }

  function LoginErrors(f: LoginForm): (r: seq<FieldError>)
    ensures r == [] <==> ValidLogin(f)
    ensures Flags(r, UsernameField) <==> !UsernameOk(f.username)
    ensures Flags(r, PasswordField) <==> !PasswordOk(f.password)
  {
    var u := TextErrors(UsernameField, f.username, true, 3, Some(64));
    var p := TextErrors(PasswordField, f.password, true, 0, None);
    assert u != [] ==> (u + p)[0] == u[0];
    assert p != [] ==> (u + p)[|u|] == p[0];
    u + p
  }

  // ---------------------------------------------------------------- GiveawayForm

  /** The values posted to GiveawayForm; `image` is the chosen file's name, if any. */
  datatype GiveawayData = GiveawayData(
    title: string,
    description: string,
    prize: string,
    image: Option<string>,
    startDate: Option<int>,
    endDate: Option<int>)

  /** The extensions listed in the image field's FileAllowed validator. */
  const ImageExtensions: set<string> := {"jpg", "jpeg", "png", "gif"}

  /** A file was chosen: an upload with an empty name counts as none. */
  predicate FileSupplied(image: Option<string>)
  {
    image.Some? && image.value != ""
  }

  predicate EndsWith(s: string, suffix: string)
  {
    |suffix| <= |s| && s[|s| - |suffix|..] == suffix
  }

  /** FileAllowed: the lower-cased file name ends in '.' followed by a listed extension. */
  predicate ImageNameAllowed(filename: string)
  {
    exists ext :: ext in ImageExtensions && EndsWith(Lower(filename), "." + ext)
  }

  lemma ImageExtensionsDotFree()
    ensures ImageExtensions == AllowedExtensions
    ensures forall ext :: ext in ImageExtensions ==> '.' !in ext
  {
  }

  /** Lower-casing commutes with taking a suffix. */
  lemma LowerSuffix(s: string, k: nat)
    requires k <= |s|
    ensures Lower(s[k..]) == Lower(s)[k..]
  {
    var a := Lower(s[k..]);
    var b := Lower(s)[k..];
    assert |a| == |b|;
    forall j | 0 <= j < |a| ensures a[j] == b[j] {
      assert s[k..][j] == s[k + j];
    }
  }

  /** Lower-casing neither adds nor removes dots. */
  lemma DotFreeUnderLower(s: string)
    ensures '.' in s <==> '.' in Lower(s)
  {
    if '.' in s {
      var j :| 0 <= j < |s| && s[j] == '.';
      assert Lower(s)[j] == '.';
    }
    if '.' in Lower(s) {
      var j :| 0 <= j < |s| && Lower(s)[j] == '.';
      assert s[j] == '.';
    }
  }

  /** A lower-cased name ending in '.' + a dot-free `ext` has `ext` as its lower-cased last suffix. */
  lemma SuffixIsExtension(filename: string, ext: string)
    requires '.' !in ext
    requires EndsWith(Lower(filename), "." + ext)
    ensures Extension(filename).Some? && Lower(Extension(filename).value) == ext
  {
    var low := Lower(filename);
    var k := |filename| - |ext| - 1;
    var dotExt := "." + ext;
    assert low[k..] == dotExt;
    assert low[k] == dotExt[0] == '.';
    LowerSuffix(filename, k + 1);
    assert Lower(filename[k + 1..]) == ext by {
      assert low[k + 1..] == dotExt[1..] == ext;
    }
    var tail := filename[k + 1..];
    DotFreeUnderLower(tail);
    assert filename == filename[..k] + "." + tail;
    ExtensionOfJoin(filename[..k], tail);
  }

  /** The lower-cased name ends in '.' + its lower-cased last suffix. */
  lemma EndsWithExtension(filename: string)
    requires Extension(filename).Some?
    ensures EndsWith(Lower(filename), "." + Lower(Extension(filename).value))
  {
    var low := Lower(filename);
    var e := Extension(filename).value;
    var le := Lower(e);
    var n := |filename|;
    var k := n - |e| - 1;
    forall j | 0 <= j < |e| + 1 ensures low[k + j] == ("." + le)[j] {
      if j > 0 {
        assert e[j - 1] == filename[k + j];
      }
    }
    assert low[k..] == "." + le;
  }

  /** The form's FileAllowed rule and the route's allowed_file check accept the same names. */
  lemma ImageNameAllowedIffAllowedFile(filename: string)
    ensures ImageNameAllowed(filename) <==> AllowedFile(filename)
  {
    ImageExtensionsDotFree();
    if ImageNameAllowed(filename) {
      var ext :| ext in ImageExtensions && EndsWith(Lower(filename), "." + ext);
      SuffixIsExtension(filename, ext);
    }
    if AllowedFile(filename) {
      EndsWithExtension(filename);
      var le := Lower(Extension(filename).value);
      assert le in ImageExtensions && EndsWith(Lower(filename), "." + le);
    }
  }

  /** The image field's messages: FileAllowed, which ignores a missing file. */
  function ImageErrors(image: Option<string>): (r: seq<FieldError>)
    ensures r == [] <==> (FileSupplied(image) ==> ImageNameAllowed(image.value))
    ensures forall k :: 0 <= k < |r| ==> r[k].field == ImageField
  {
    if FileSupplied(image) && !ImageNameAllowed(image.value) then [FieldError(ImageField, ImagesOnly)] else []
  }

  /** GiveawayForm.is_edit: the form was built around an existing giveaway. */
  function IsEdit<T>(obj: Option<T>): (r: bool)
    ensures r <==> obj.Some?
  {
    obj.Some?
  }

  /**
   * validate_end_date AS WRITTEN. It compares with `start_date.data`, which is
   * None when the start date is missing or unparseable; Python's `<=` between a
   * datetime and None raises TypeError, which no validator catches. `None`
   * here stands for that uncaught exception.
   */
  function EndDateCheckAsWritten(end: int, start: Option<int>, now: int, isEdit: bool): (r: Option<seq<FieldError>>)
    ensures r.None? <==> start.None?
    ensures r.Some? ==> r.value == EndDateErrors(end, start, now, isEdit)
  {
    match start
    case None => None
    case Some(s) =>
      if end <= s then Some([FieldError(EndDateField, EndNotAfterStart)])
      else if end < now && !isEdit then Some([FieldError(EndDateField, EndInPast)])
      else Some([])
  }

  /**
   * validate_end_date as evidently intended: the ordering check needs a start
   * date (the start field reports its own absence); "not in the past" is
   * skipped when editing.
   */
  function EndDateErrors(end: int, start: Option<int>, now: int, isEdit: bool): (r: seq<FieldError>)
    ensures r == [] <==> (start.Some? ==> start.value < end) && (isEdit || now <= end)
    ensures start.Some? && end <= start.value ==> r == [FieldError(EndDateField, EndNotAfterStart)]
    ensures (start.Some? ==> start.value < end) && end < now ==> (r == [FieldError(EndDateField, EndInPast)] <==> !isEdit)
    ensures forall k :: 0 <= k < |r| ==> r[k].field == EndDateField
  {
    if start.Some? && end <= start.value then [FieldError(EndDateField, EndNotAfterStart)]
    else if end < now && !isEdit then [FieldError(EndDateField, EndInPast)]
    else []
  }

  predicate TitleOk(d: GiveawayData) { TextOk(d.title, true, 5, Some(100)) }
  predicate DescriptionOk(d: GiveawayData) { TextOk(d.description, true, 10, None) }
  predicate PrizeOk(d: GiveawayData) { TextOk(d.prize, true, 3, Some(200)) }
  predicate ImageOk(d: GiveawayData) { FileSupplied(d.image) ==> ImageNameAllowed(d.image.value) }

  /** GiveawayForm accepts the submission; `isEdit` waives only the "end not in the past" rule. */
  predicate ValidGiveaway(d: GiveawayData, isEdit: bool, now: int)
  {
    && TitleOk(d) && DescriptionOk(d) && PrizeOk(d) && ImageOk(d)
    && d.startDate.Some? && d.endDate.Some?
    && d.startDate.value < d.endDate.value
    && (isEdit || now <= d.endDate.value)
  }

  /**
   * The date fields' messages: DataRequired on both, then validate_end_date
   * (corrected). A missing start is reported on the start field and nowhere
   * else; the end field carries its own DataRequired and validate_end_date.
   */
  function DateErrors(d: GiveawayData, isEdit: bool, now: int): (r: seq<FieldError>)
    ensures r == [] <==>
              d.startDate.Some? && d.endDate.Some? && d.startDate.value < d.endDate.value
              && (isEdit || now <= d.endDate.value)
    ensures forall k :: 0 <= k < |r| ==> r[k].field in {StartDateField, EndDateField}
    ensures Flags(r, StartDateField) <==> d.startDate.None?
    ensures Flags(r, EndDateField) <==>
              d.endDate.None? || EndDateErrors(d.endDate.value, d.startDate, now, isEdit) != []
  {
    var s: seq<FieldError> := if d.startDate.None? then [FieldError(StartDateField, Required)] else [];
    var e: seq<FieldError> := match d.endDate
      case None => [FieldError(EndDateField, Required)]
      case Some(end) => EndDateErrors(end, d.startDate, now, isEdit);
    FlagsAppend(s, e, StartDateField);
    FlagsAppend(s, e, EndDateField);
    FlagsSameField(s, StartDateField, StartDateField);
    FlagsSameField(s, StartDateField, EndDateField);
    FlagsSameField(e, EndDateField, StartDateField);
    FlagsSameField(e, EndDateField, EndDateField);
    s + e
  }

  /** The messages GiveawayForm reports, with the corrected end-date validator. */
  function GiveawayErrors(d: GiveawayData, isEdit: bool, now: int): (r: seq<FieldError>)
    ensures r == [] <==> ValidGiveaway(d, isEdit, now)
    ensures Flags(r, TitleField) <==> !TitleOk(d)
    ensures Flags(r, DescriptionField) <==> !DescriptionOk(d)
    ensures Flags(r, PrizeField) <==> !PrizeOk(d)
    ensures Flags(r, ImageField) <==> !ImageOk(d)
    ensures Flags(r, StartDateField) <==> d.startDate.None?
    ensures Flags(r, EndDateField) <==>
              d.endDate.None? || EndDateErrors(d.endDate.value, d.startDate, now, isEdit) != []
  {
    var t := TextErrors(TitleField, d.title, true, 5, Some(100));
    var ds := TextErrors(DescriptionField, d.description, true, 10, None);
    var p := TextErrors(PrizeField, d.prize, true, 3, Some(200));
    var i := ImageErrors(d.image);
    var dates := DateErrors(d, isEdit, now);
    var r := t + ds + p + i + dates;
    forall fl
      ensures Flags(r, fl) <==>
                (t != [] && fl == TitleField) || (ds != [] && fl == DescriptionField)
                || (p != [] && fl == PrizeField) || (i != [] && fl == ImageField)
                || Flags(dates, fl)
    {
      FlagsAppend(t, ds, fl);
      FlagsAppend(t + ds, p, fl);
      FlagsAppend(t + ds + p, i, fl);
      FlagsAppend(t + ds + p + i, dates, fl);
      FlagsSameField(t, TitleField, fl);
      FlagsSameField(ds, DescriptionField, fl);
      FlagsSameField(p, PrizeField, fl);
      FlagsSameField(i, ImageField, fl);
    }
    FlagsOneField(dates, TitleField);
    FlagsOneField(dates, DescriptionField);
    FlagsOneField(dates, PrizeField);
    FlagsOneField(dates, ImageField);
    r
  }

  /** An error list flags a field exactly when one of its two halves does. */
  lemma FlagsAppend(a: seq<FieldError>, b: seq<FieldError>, field: Field)
    ensures Flags(a + b, field) <==> Flags(a, field) || Flags(b, field)
  {
    if Flags(a, field) {
      var k :| 0 <= k < |a| && a[k].field == field;
      assert (a + b)[k] == a[k];
    }
    if Flags(b, field) {
      var k :| 0 <= k < |b| && b[k].field == field;
      assert (a + b)[|a| + k] == b[k];
    }
  }

  /** A list whose messages are all about `field` flags that field alone, when it is non-empty. */
  lemma FlagsSameField(errors: seq<FieldError>, field: Field, other: Field)
    requires forall k :: 0 <= k < |errors| ==> errors[k].field == field
    ensures Flags(errors, other) <==> errors != [] && field == other
  {
    if errors != [] && field == other {
      assert errors[0].field == other;
    }
  }

  /** The date messages are about the date fields only. */
  lemma FlagsOneField(dates: seq<FieldError>, field: Field)
    requires forall k :: 0 <= k < |dates| ==> dates[k].field in {StartDateField, EndDateField}
    requires field !in {StartDateField, EndDateField}
    ensures !Flags(dates, field)
  {
  }

  /**
   * GiveawayForm AS WRITTEN: `None` when validation itself raises, which
   * happens exactly when an end date is given without a usable start date.
   */
  function GiveawayErrorsAsWritten(d: GiveawayData, isEdit: bool, now: int): (r: Option<seq<FieldError>>)
    ensures r.None? <==> d.startDate.None? && d.endDate.Some?
    ensures r.Some? ==> r.value == GiveawayErrors(d, isEdit, now)
  {
    var before :=
      TextErrors(TitleField, d.title, true, 5, Some(100))
      + TextErrors(DescriptionField, d.description, true, 10, None)
      + TextErrors(PrizeField, d.prize, true, 3, Some(200))
      + ImageErrors(d.image)
      + (if d.startDate.None? then [FieldError(StartDateField, Required)] else []);
    match d.endDate
    case None => Some(before + [FieldError(EndDateField, Required)])
    case Some(e) =>
      match EndDateCheckAsWritten(e, d.startDate, now, isEdit)
      case None => None
      case Some(endErrors) => Some(before + endErrors)
  }

  /**
   * The input that shows it: a well-formed giveaway whose start date is left
   * empty raises instead of reporting the missing start date; the corrected
   * form reports exactly that field.
   */
  lemma MissingStartCrashesAsWritten(now: int)
    ensures GiveawayErrorsAsWritten(
              GiveawayData("Summer raffle", "Win a brand-new bicycle", "Bicycle", None, None, Some(now + 10)),
              false, now).None?
    ensures GiveawayErrors(
              GiveawayData("Summer raffle", "Win a brand-new bicycle", "Bicycle", None, None, Some(now + 10)),
              false, now) == [FieldError(StartDateField, Required)]
  {
    var d := GiveawayData("Summer raffle", "Win a brand-new bicycle", "Bicycle", None, None, Some(now + 10));
    assert !IsSpace(d.title[0]) && !IsSpace(d.description[0]) && !IsSpace(d.prize[0]);
    assert TitleOk(d) && DescriptionOk(d) && PrizeOk(d);
  }

  /** Edit accepts whatever create accepts, and more only through the past-end waiver. */
  lemma EditWaivesOnlyPastEnd(d: GiveawayData, now: int)
    ensures ValidGiveaway(d, false, now) ==> ValidGiveaway(d, true, now)
    ensures ValidGiveaway(d, true, now) && !ValidGiveaway(d, false, now) ==> d.endDate.value < now
    ensures d.endDate.Some? && d.endDate.value < now ==> !ValidGiveaway(d, false, now)
    ensures (d.startDate.Some? && d.endDate.Some? && d.endDate.value <= d.startDate.value)
            ==> !ValidGiveaway(d, false, now) && !ValidGiveaway(d, true, now)
  {
  }

  /** Accepted text fits the columns it is stored in. */
  lemma ValidFormsFitColumns(f: EntryForm, emailOk: bool, d: GiveawayData, isEdit: bool, now: int)
    ensures ValidEntry(f, emailOk) ==> |f.name| <= 100 && |f.email| <= 100 && |f.phone| <= 20
    ensures ValidGiveaway(d, isEdit, now) ==> |d.title| <= 100 && |d.prize| <= 200
  {
  }
}
