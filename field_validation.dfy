/**
  The decision logic of `validateField` in form.js: which custom message a
  field gets from its name and current contents, and the verdict that
  message and the browser's own constraint validation give together.
  The browser-defined parts (the email `typeMismatch` flag, the other
  native constraints such as `required`, and the text the browser shows
  for them) are fields of the `Field` record.
 */
module FieldValidation {
  import opened JsText

  /** A file in a FileList: its name, its MIME type and its size in bytes. */
  datatype FileInfo = FileInfo(name: string, mime: string, size: nat)

  /** The `name` attribute of a control, as far as `validateField`
      distinguishes it; every other name is `OtherName`. */
  datatype FieldName =
    | FirstName | LastName | Email | Dob | BriefDescription
    | LinkedIn | Twitter | Facebook
    | OtherName
  {
    predicate IsSocial() {
      LinkedIn? || Twitter? || Facebook?
    }

    /** The names whose value must be non-blank: the text fields and the social links. */
    predicate IsRequiredText() {
      FirstName? || LastName? || Email? || Dob? || IsSocial()
    }
  }

  /** The attribute text of a name the code knows (used in the social messages). */
  function NameText(n: FieldName): string {
    match n
    case FirstName => "firstName"
    case LastName => "lastName"
    case Email => "email"
    case Dob => "dob"
    case BriefDescription => "briefDescription"
    case LinkedIn => "linkedin"
    case Twitter => "twitter"
    case Facebook => "facebook"
    case OtherName => ""
  }

  /** The state of one form control that `validateField` reads. */
  datatype Field = Field(
    name: FieldName,
    value: string,
    files: seq<FileInfo>,
    typeMismatch: bool,     // validity.typeMismatch (email syntax, host-defined)
    nativeValid: bool,      // every native constraint other than the custom error holds
    nativeMessage: string)  // the browser's message for a failing native constraint

  const TenGiB: nat := 10 * 1024 * 1024 * 1024

  /** The custom validity messages `validateField` can install; `NoMessage`
      is the empty string, which clears the custom error. */
  datatype Message =
    | NoMessage
    | Required(n: FieldName)        // "Please enter your ..."
    | InvalidLink(n: FieldName)     // "Please enter a valid <name> profile link."
    | AlphabetOnly
    | InvalidEmail
    | NoDescription
    | DescriptionTooLarge

  /** The platform names a social-link pattern exists for. */
  predicate IsSocialName(site: string) {
    site == "linkedin" || site == "twitter" || site == "facebook"
  }

  /** The `name` attribute of a social-link field is one of the platforms. */
  lemma SocialNameText(n: FieldName)
    requires n.IsSocial()
    ensures IsSocialName(NameText(n))
  {
  }

  /** The text of a message, as `setCustomValidity` receives it. The social
      messages interpolate the field's `name` attribute. */
  function Text(m: Message): (t: string)
    ensures t == "" <==> m == NoMessage
  {
    match m
    case NoMessage => ""
    case Required(n) =>
      (match n
       case FirstName => "Please enter your first name."
       case LastName => "Please enter your last name."
       case Email => "Please enter your email address."
       case Dob => "Please enter your date of birth."
       case _ => "Please enter your " + NameText(n) + " profile link.")
    case InvalidLink(n) => "Please enter a valid " + NameText(n) + " profile link."
    case AlphabetOnly => "Please use alphabet characters only."
    case InvalidEmail => "Please enter a valid email address."
    case NoDescription => "Please upload a brief description."
    case DescriptionTooLarge => "Please select a file that is 10 GB or smaller."
  }

  // ---------------------------------------------------------------------
  // The social-link pattern /^(https?:\/\/)?(www\.)?<name>\.com\/.*$/
  // ---------------------------------------------------------------------

  function Host(site: string): string {
    site + ".com/"
  }

  /** Text that can follow the optional groups: it starts with neither
      'h' nor 'w', so neither group could have taken more of it. The three
      platform hosts are such text. */
  predicate IsPlatformHost(h: string) {
    |h| > 0 && h[0] in {'l', 't', 'f'}
  }

  lemma HostIsPlatformHost(site: string)
    requires IsSocialName(site)
    ensures IsPlatformHost(Host(site))
  {
    assert Host(site)[0] == site[0];
  }

  /** One way the pattern can match: the chosen scheme group, the chosen
      `www.` group, then the host h, then a tail without line terminators. */
  predicate MatchesWith(s: string, h: string, scheme: string, www: string) {
    && (scheme == "" || scheme == "http://" || scheme == "https://")
    && (www == "" || www == "www.")
    && StartsWith(s, scheme + www + h)
    && NoLineTerminator(s[|scheme + www + h|..])
  }

  /** Reference meaning of the regular expression for a platform: some
      choice of the two optional groups makes the whole string match. */
  ghost predicate SocialPattern(s: string, site: string) {
    exists scheme: string, www: string :: MatchesWith(s, Host(site), scheme, www)
  }

  /** The scheme group as the left-to-right match takes it. */
  function SchemeGroup(s: string): (g: string)
    ensures StartsWith(s, g)
  {
    if StartsWith(s, "https://") then "https://"
    else if StartsWith(s, "http://") then "http://"
    else ""
  }

  /** The `www.` group as the left-to-right match takes it. */
  function WwwGroup(t: string): (g: string)
    ensures StartsWith(t, g)
  {
    if StartsWith(t, "www.") then "www." else ""
  }

  /** The test as a single left-to-right pass that takes each optional
      group whenever its text is present, then expects the host h. */
  function GreedyMatch(s: string, h: string): bool {
    var afterScheme := s[|SchemeGroup(s)|..];
    var afterWww := afterScheme[|WwwGroup(afterScheme)|..];
    StartsWith(afterWww, h) && NoLineTerminator(afterWww[|h|..])
  }

  /** `urlPatterns[name].test(value)` for a platform name. */
  function SocialMatches(s: string, site: string): bool {
    GreedyMatch(s, Host(site))
  }

  /** A scheme group followed by text that cannot start a scheme is the
      group the left-to-right pass takes. */
  lemma SchemeIsGreedy(s: string, scheme: string, rest: string)
    requires scheme == "" || scheme == "http://" || scheme == "https://"
    requires StartsWith(s, scheme + rest)
    requires |rest| > 0 && rest[0] in {'w', 'l', 't', 'f'}
    ensures scheme == SchemeGroup(s)
  {
    StartsWithConcat(s, scheme, rest);
    if scheme == "http://" {
      assert s[4] == s[..7][4] == ':';
    } else if scheme == "" {
      assert s[0] == s[..|rest|][0] == rest[0];
    }
  }

  /** Likewise for the `www.` group followed by a platform host. */
  lemma WwwIsGreedy(t: string, www: string, h: string)
    requires www == "" || www == "www."
    requires StartsWith(t, www + h)
    requires IsPlatformHost(h)
    ensures www == WwwGroup(t)
  {
    StartsWithConcat(t, www, h);
    if www == "" {
      assert t[0] == t[..|h|][0] == h[0];
    }
  }

  /** Any way the pattern matches uses the groups the left-to-right pass
      takes: no backtracking is needed. */
  lemma MatchUsesGreedyGroups(s: string, h: string, scheme: string, www: string)
    requires IsPlatformHost(h)
    requires MatchesWith(s, h, scheme, www)
    ensures scheme == SchemeGroup(s)
    ensures www == WwwGroup(s[|scheme|..])
  {
    assert scheme + www + h == scheme + (www + h);
    assert (www + h)[0] in {'w', 'l', 't', 'f'};
    SchemeIsGreedy(s, scheme, www + h);
    StartsWithConcat(s, scheme, www + h);
    WwwIsGreedy(s[|scheme|..], www, h);
  }

  /** The left-to-right pass decides the pattern exactly. */
  lemma GreedyMatchIffSomeMatch(s: string, h: string)
    requires IsPlatformHost(h)
    ensures GreedyMatch(s, h) <==> exists scheme: string, www: string :: MatchesWith(s, h, scheme, www)
  {
    var scheme := SchemeGroup(s);
    var t := s[|scheme|..];
    var www := WwwGroup(t);
    assert scheme + www + h == scheme + (www + h);
    StartsWithConcat(s, scheme, www + h);
    StartsWithConcat(t, www, h);
    assert t[|www|..] == s[|scheme| + |www|..];
    if exists sc: string, w: string :: MatchesWith(s, h, sc, w) {
      var sc, w :| MatchesWith(s, h, sc, w);
      MatchUsesGreedyGroups(s, h, sc, w);
    }
    if GreedyMatch(s, h) {
      assert t[|www|..][|h|..] == s[|scheme + www + h|..];
      assert MatchesWith(s, h, scheme, www);
    }
  }

  /** `urlPatterns[name].test` accepts exactly the links the pattern
      describes, for each of the three platforms. */
  lemma SocialMatchesIffPattern(s: string, site: string)
    requires IsSocialName(site)
    ensures SocialMatches(s, site) <==> SocialPattern(s, site)
  {
    HostIsPlatformHost(site);
    GreedyMatchIffSomeMatch(s, Host(site));
  }

  // ---------------------------------------------------------------------
  // validateField
  // ---------------------------------------------------------------------

  /** The message the `switch` on the field name picks. */
  function SwitchMessage(f: Field): Message {
    match f.name
    case FirstName | LastName | Email | Dob =>
      if Trim(f.value) != [] then NoMessage else Required(f.name)
    case BriefDescription => if |f.files| > 0 then NoMessage else NoDescription
    case LinkedIn | Twitter | Facebook =>
      if Trim(f.value) == [] then Required(f.name)
      else if !SocialMatches(f.value, NameText(f.name)) then InvalidLink(f.name)
      else NoMessage
    case OtherName => NoMessage
  }

  /** The custom message after the content checks for a non-blank value. */
  function CustomMessage(f: Field): Message {
    var m := SwitchMessage(f);
    if Trim(f.value) != [] then
      if f.name == FirstName || f.name == LastName then
        if IsAsciiLetters(f.value) then NoMessage else AlphabetOnly
      else if f.name == Email then
        if f.typeMismatch then InvalidEmail else NoMessage
      else if f.name == BriefDescription then
        if |f.files| > 0 && f.files[0].size > TenGiB then DescriptionTooLarge else NoMessage
      else m
    else m
  }

  /** `checkValidity()` once the custom message is installed. */
  predicate Verdict(f: Field) {
    CustomMessage(f) == NoMessage && f.nativeValid
  }

  /** `validationMessage`: the custom message when one is set, otherwise
      the browser's message for the failing native constraint. */
  function ValidationMessage(f: Field): string {
    var m := CustomMessage(f);
    if m != NoMessage then Text(m) else f.nativeMessage
  }

  /** What `validateField` leaves on the page for one field. */
  datatype FieldView = FieldView(
    customValidity: string,
    errorText: string,     // the group's .error-message text
    fieldError: bool,      // the field has class "error"
    groupError: bool)      // the .form-group has class "error"

  /** The view `validateField` produces for a field. */
  function Render(f: Field): (v: FieldView)
    ensures v.customValidity == Text(CustomMessage(f))
    ensures v.fieldError == v.groupError == !Verdict(f)
    ensures Verdict(f) ==> v.errorText == ""
    ensures CustomMessage(f) != NoMessage ==> v.errorText == Text(CustomMessage(f))
    ensures !Verdict(f) && CustomMessage(f) == NoMessage ==> v.errorText == f.nativeMessage
  {
    var ok := Verdict(f);
    FieldView(Text(CustomMessage(f)), if ok then "" else ValidationMessage(f), !ok, !ok)
  }

  // ---------------------------------------------------------------------
  // What validateField promises
  // ---------------------------------------------------------------------

  /** A blank first name, last name, email, date of birth or social link
      gets that field's "Please enter your ..." message and fails. */
  lemma BlankRequiredFieldFails(f: Field)
    requires f.name.IsRequiredText() && IsBlank(f.value)
    ensures CustomMessage(f) == Required(f.name)
    ensures !Verdict(f)
  {
    TrimEmptyIffBlank(f.value);
  }

  /** A non-blank name passes exactly when the untrimmed value is one or
      more ASCII letters (and the native constraints hold); otherwise the
      message asks for alphabet characters. */
  lemma NameRule(f: Field)
    requires f.name == FirstName || f.name == LastName
    requires !IsBlank(f.value)
    ensures CustomMessage(f) == (if IsAsciiLetters(f.value) then NoMessage else AlphabetOnly)
    ensures Verdict(f) <==> IsAsciiLetters(f.value) && f.nativeValid
  {
    TrimEmptyIffBlank(f.value);
  }

  /** " Anne" is refused: the letters check sees the untrimmed value. */
  lemma LeadingSpaceNameRefused(native: bool)
    ensures CustomMessage(Field(FirstName, " Anne", [], false, native, "")) == AlphabetOnly
  {
    var f := Field(FirstName, " Anne", [], false, native, "");
    assert !IsJsWhitespace(f.value[1]);
    NameRule(f);
    assert f.value[0] == ' ';
  }

  /** "Anne-Marie" is refused: a hyphen is not a letter. */
  lemma HyphenatedNameRefused(native: bool)
    ensures CustomMessage(Field(FirstName, "Anne-Marie", [], false, native, "")) == AlphabetOnly
  {
    var f := Field(FirstName, "Anne-Marie", [], false, native, "");
    assert !IsJsWhitespace(f.value[0]);
    NameRule(f);
    assert f.value[4] == '-';
  }

  /** "Anne" is accepted when the native constraints hold. */
  lemma NameExampleAccepted()
    ensures Verdict(Field(FirstName, "Anne", [], false, true, ""))
  {
    var f := Field(FirstName, "Anne", [], false, true, "");
    assert !IsJsWhitespace(f.value[0]);
    NameRule(f);
  }

  /** A non-blank social link passes the custom check exactly when the
      platform's pattern matches the untrimmed value. */
  lemma SocialRule(f: Field)
    requires f.name.IsSocial() && !IsBlank(f.value)
    ensures CustomMessage(f) == (if SocialPattern(f.value, NameText(f.name)) then NoMessage else InvalidLink(f.name))
    ensures Verdict(f) <==> SocialPattern(f.value, NameText(f.name)) && f.nativeValid
  {
    TrimEmptyIffBlank(f.value);
    var site := NameText(f.name);
    SocialNameText(f.name);
    SocialMatchesIffPattern(f.value, site);
    assert f.name != FirstName && f.name != LastName && f.name != Email && f.name != BriefDescription;
    assert CustomMessage(f) == SwitchMessage(f);
  }

  /** "linkedin.com/in/x" is a LinkedIn link. */
  lemma LinkedInExampleMatches()
    ensures SocialPattern("linkedin.com/in/x", "linkedin")
  {
    var s := "linkedin.com/in/x";
    assert s[..13] == Host("linkedin");
    assert NoLineTerminator(s[13..]);
    assert MatchesWith(s, Host("linkedin"), "", "");
  }

  /** "example.com/x" is not a LinkedIn link. */
  lemma OtherSiteRefused()
    ensures !SocialPattern("example.com/x", "linkedin")
  {
    var s := "example.com/x";
    SocialMatchesIffPattern(s, "linkedin");
    assert s[0] == 'e';
    assert SchemeGroup(s) == "" by {
      assert s[..8][0] == 'e' && s[..7][0] == 'e';
    }
    assert WwwGroup(s) == "" by {
      assert s[..4][0] == 'e';
    }
    assert !StartsWith(s, Host("linkedin")) by {
      assert Host("linkedin")[0] == 'l';
    }
  }

  /** The email check for a non-blank value is the browser's type check. */
  lemma EmailRule(f: Field)
    requires f.name == Email && !IsBlank(f.value)
    ensures CustomMessage(f) == (if f.typeMismatch then InvalidEmail else NoMessage)
  {
    TrimEmptyIffBlank(f.value);
  }

  /** A non-blank date of birth has no custom message; its range is left to
      the browser's min/max constraints. */
  lemma DobRule(f: Field)
    requires f.name == Dob && !IsBlank(f.value)
    ensures CustomMessage(f) == NoMessage
    ensures Verdict(f) == f.nativeValid
  {
    TrimEmptyIffBlank(f.value);
  }

  /** With no file attached (a file input's value is then blank) the brief
      description asks for an upload. */
  lemma NoDescriptionFails(f: Field)
    requires f.name == BriefDescription && f.files == [] && IsBlank(f.value)
    ensures CustomMessage(f) == NoDescription
    ensures !Verdict(f)
  {
    TrimEmptyIffBlank(f.value);
  }

  /** With a file attached, only the first file's size matters, and up to
      and including 10 GiB is accepted. */
  lemma DescriptionSizeRule(f: Field)
    requires f.name == BriefDescription && f.files != [] && !IsBlank(f.value)
    ensures CustomMessage(f) == (if f.files[0].size <= TenGiB then NoMessage else DescriptionTooLarge)
  {
    TrimEmptyIffBlank(f.value);
  }

  /** A field the code has no rule for relies on the native constraints alone. */
  lemma OtherFieldNative(f: Field)
    requires f.name == OtherName
    ensures CustomMessage(f) == NoMessage
    ensures Verdict(f) == f.nativeValid
  {
  }
}
