/** What a credential's display is, in one locale and in all: the meaning both implementations in Display.dfy are proved
    against, and the law that connects them. */
module DisplayModel {
  import opened Outcomes
  import opened GoText
  import opened ClaimSearch
  import Masking

  // ---- the issuer's metadata -----------------------------------------------------------------

  datatype Logo = Logo(url: string, altText: string)

  /** Display data of an issuer or of a credential as a whole, for one locale; a credential's has no URL of its own. */
  datatype Localized = Localized(name: string, locale: string, url: string, logo: Option<Logo>,
                                 backgroundColor: string, textColor: string)
  datatype Label = Label(name: string, locale: string)
  datatype Claim = Claim(displays: seq<Label>, valueType: string, pattern: string, mask: Bytes)
  datatype Config = Config(claims: map<string, Claim>, order: seq<string>, displays: seq<Localized>)

  // ---- the credentials -----------------------------------------------------------------------

  /** A credential; None for its subjects means that the display copy could not be made. */
  datatype Credential = Credential(id: string, raw: Fields, subjects: Option<seq<Subject>>)

  /** A credential, if any, with its configuration, if any. */
  datatype Mapping = Mapping(credential: Option<Credential>, config: Option<Config>)

  datatype Attachment = Attachment(id: string, mimeType: string, uri: string)

  /** Library calls that are not part of the model: printing and decoding of values, the pattern compiler and JSONPath;
      and the value that the search for a field comes up with in a given credential. */
  datatype Library = Library(render: Json -> Bytes, decode: Json -> Attachment, compile: Bytes -> Option<Masking.Regex>,
                             jsonPath: (Fields, string) -> Json, lookup: (Credential, string) -> Json)

  /** The lookup gives what the search gives, for some order in which each map is visited. */
  ghost predicate Searches(lib: Library) {
    forall c: Credential, fieldName: string :: c.subjects.Some? && |c.subjects.value| == 1 ==>
      FieldValue(lib.jsonPath, c.raw, c.subjects.value[0], fieldName, lib.lookup(c, fieldName))
  }

  // ---- the displays --------------------------------------------------------------------------

  /** What does not depend on a locale. */
  datatype ClaimData = ClaimData(rawID: string, valueType: string, order: Option<nat>, rawValue: Bytes,
                                 value: Option<Bytes>, pattern: string, mask: Bytes, attachment: Option<Attachment>)
  datatype ResolvedClaim = ResolvedClaim(labelText: string, locale: string, data: ClaimData)
  datatype SubjectClaim = SubjectClaim(labels: seq<Label>, data: ClaimData)

  datatype CredentialDisplay = CredentialDisplay(overview: Localized, claims: seq<ResolvedClaim>)
  datatype CredentialAllLocale = CredentialAllLocale(overviews: seq<Localized>, subject: seq<SubjectClaim>)

  const NO_OVERVIEW := Localized("", "", "", None, "", "")

  // ---- choosing a locale ---------------------------------------------------------------------

  function Preferred(locale: string): string {
    if locale == "" then "en-US" else locale
  }

  /** The first entry whose locale equals the preferred one up to case, or else the first entry. */
  function Choose(labels: seq<Label>, locale: string): (i: nat)
    requires labels != []
    ensures i < |labels|
  {
    var i := FirstMatch(labels, Preferred(locale));
    if i == |labels| then 0 else i
  }

  function FirstMatch(labels: seq<Label>, preferred: string): (i: nat)
    ensures i <= |labels|
    ensures i < |labels| ==> EqualFold(labels[i].locale, preferred)
    ensures forall j :: 0 <= j < i ==> !EqualFold(labels[j].locale, preferred)
  {
    if labels == [] then 0
    else if EqualFold(labels[0].locale, preferred) then 0
    else 1 + FirstMatch(labels[1..], preferred)
  }

  lemma {:induction false} FirstMatchIs(labels: seq<Label>, preferred: string, i: nat)
    requires i < |labels| && EqualFold(labels[i].locale, preferred)
    requires forall j :: 0 <= j < i ==> !EqualFold(labels[j].locale, preferred)
    ensures FirstMatch(labels, preferred) == i
  {
    if i > 0 {
      assert !EqualFold(labels[0].locale, preferred);
      FirstMatchIs(labels[1..], preferred, i - 1);
    }
  }

  /** The first entry for this locale, up to case, or the first of all if there is none. */
  ghost predicate FirstFor<T>(items: seq<T>, localeOf: T -> string, locale: string, i: nat) {
    && i < |items|
    && if exists j :: 0 <= j < |items| && EqualFold(localeOf(items[j]), locale) then
         EqualFold(localeOf(items[i]), locale) && forall j :: 0 <= j < i ==> !EqualFold(localeOf(items[j]), locale)
       else i == 0
  }

  /** What is promised for a locale, and done for US English without one. */
  ghost predicate IsChosen<T>(items: seq<T>, localeOf: T -> string, locale: string, i: nat) {
    && (locale != "" ==> FirstFor(items, localeOf, locale, i))
    && (locale == "" ==> FirstFor(items, localeOf, "en-US", i))
  }

  lemma ChooseIsChosen(labels: seq<Label>, locale: string)
    requires labels != []
    ensures IsChosen(labels, (l: Label) => l.locale, locale, Choose(labels, locale))
  {
  }

  /** The display is the one promised for the locale; there is one if there is any. */
  ghost predicate IsDisplayFor(displays: seq<Localized>, locale: string, display: Option<Localized>) {
    match display
    case None => displays == []
    case Some(d) =>
      exists i :: 0 <= i < |displays| && d == displays[i] && IsChosen(displays, (x: Localized) => x.locale, locale, i)
  }

  /** The display selected for a locale is the first one for it, or else the first. */
  lemma SelectedIsChosen(displays: seq<Localized>, locale: string)
    ensures IsDisplayFor(displays, locale, SelectDisplay(displays, locale))
  {
    if displays != [] {
      var labels := LabelsOf(displays);
      var i := Choose(labels, locale);
      assert forall j :: 0 <= j < |displays| ==> labels[j].locale == displays[j].locale;
      assert IsChosen(displays, (x: Localized) => x.locale, locale, i);
    }
  }

  /** Without a preferred locale the first entry is promised. It is chosen exactly when it is in US English, or nothing
      is. */
  lemma FirstWithoutPreferenceExactlyWhen(labels: seq<Label>)
    requires labels != []
    ensures Choose(labels, "") == 0 <==>
            || EqualFold(labels[0].locale, "en-US")
            || forall j :: 0 <= j < |labels| ==> !EqualFold(labels[j].locale, "en-US")
  {
    var i := FirstMatch(labels, "en-US");
    if 0 < i < |labels| {
      assert EqualFold(labels[i].locale, "en-US") && !EqualFold(labels[0].locale, "en-US");
    }
  }

  /** The names and locales of localized displays. */
  function LabelsOf(displays: seq<Localized>): (r: seq<Label>)
    ensures |r| == |displays|
  {
    seq(|displays|, i requires 0 <= i < |displays| => Label(displays[i].name, displays[i].locale))
  }

  // ---- resolving one claim -------------------------------------------------------------------

  function OrderOf(order: seq<string>, fieldName: string): Option<nat> {
    if fieldName !in order then None else Some(FirstIndex(order, fieldName))
  }

  function FirstIndex(order: seq<string>, fieldName: string): (i: nat)
    requires fieldName in order
    ensures i < |order| && order[i] == fieldName && fieldName !in order[..i]
  {
    if order[0] == fieldName then 0
    else
      var i := FirstIndex(order[1..], fieldName);
      assert order[..i + 1] == [order[0]] + order[1..][..i];
      i + 1
  }

  lemma {:induction false} FirstIndexIs(order: seq<string>, fieldName: string, i: nat)
    requires i < |order| && order[i] == fieldName && fieldName !in order[..i]
    ensures FirstIndex(order, fieldName) == i
  {
    if i > 0 {
      assert order[..i][0] == order[0] && order[1..][..i - 1] == order[..i][1..];
      FirstIndexIs(order[1..], fieldName, i - 1);
    }
  }

  type ClaimOutcome = Outcome<Option<ClaimData>, string>

  /** Shared by both implementations: skipped without a display or a value, failed on a bad attachment or mask. */
  function DataOf(lib: Library, c: Credential, config: Config, mask: Bytes, fieldName: string): ClaimOutcome
    requires fieldName in config.claims
  {
    var claim := config.claims[fieldName];
    var value := lib.lookup(c, fieldName);
    if claim.displays == [] || value == Null then Ok(None)
    else if claim.valueType == "attachment" && !value.Obj? then Err("unsupported attachment value")
    else
      var attachment := if claim.valueType == "attachment" then Some(lib.decode(value)) else None;
      var raw := lib.render(value);
      var masked := if claim.mask == [] then Ok(None) else Masked(lib, raw, claim.mask, mask);
      match masked
      case Err(e) => Err(e)
      case Panic => Panic
      case Ok(v) => Ok(Some(ClaimData(fieldName, claim.valueType, OrderOf(config.order, fieldName), raw, v, claim.pattern,
                                      claim.mask, attachment)))
  }

  function Masked(lib: Library, raw: Bytes, pattern: Bytes, mask: Bytes): Outcome<Option<Bytes>, string> {
    match Masking.GetMaskedValue(lib.compile, raw, pattern, mask)
    case Ok(v) => Ok(Some(v))
    case Err(e) => Err(e)
    case Panic => Panic
  }

  /** What a claim shows, place by place. */
  ghost predicate Shows(lib: Library, c: Credential, config: Config, mask: Bytes, fieldName: string, data: ClaimData)
    requires fieldName in config.claims
  {
    var claim, value := config.claims[fieldName], lib.lookup(c, fieldName);
    && value != Null && data.rawID == fieldName && data.rawValue == lib.render(value)
    && data.valueType == claim.valueType && data.pattern == claim.pattern && data.mask == claim.mask
    && IsFirstPlace(config.order, fieldName, data.order)
    && (if claim.valueType == "attachment" then value.Obj? && data.attachment == Some(lib.decode(value))
        else data.attachment.None?)
    && (if claim.mask == [] then data.value.None?
        else data.value.Some? && ShowsMasked(lib, data.rawValue, claim.mask, mask, data.value.value))
  }

  ghost predicate IsFirstPlace(order: seq<string>, fieldName: string, place: Option<nat>) {
    match place
    case None => fieldName !in order
    case Some(i) => i < |order| && order[i] == fieldName && forall j :: 0 <= j < i ==> order[j] != fieldName
  }

  /** The masked value hides what the pattern, without its six leading bytes and its last one, captures. */
  ghost predicate ShowsMasked(lib: Library, raw: Bytes, pattern: Bytes, mask: Bytes, value: Bytes) {
    && |pattern| >= 7 && lib.compile(pattern[6..|pattern| - 1]).Some?
    && Masking.IsMasked(raw, lib.compile(pattern[6..|pattern| - 1]).value(raw), mask, value)
  }

  /** A claim is left out exactly when it has no label or no value; it shows what it should, or fails on an attachment that
      is no object or a mask that is not a pattern. */
  lemma DataShows(lib: Library, c: Credential, config: Config, mask: Bytes, fieldName: string)
    requires fieldName in config.claims
    ensures var claim, r := config.claims[fieldName], DataOf(lib, c, config, mask, fieldName);
            var value := lib.lookup(c, fieldName);
            && (r == Ok(None) <==> claim.displays == [] || value == Null)
            && (r.Ok? && r.value.Some? ==> Shows(lib, c, config, mask, fieldName, r.value.value))
            && (!r.Ok? <==>
                  claim.displays != [] && value != Null &&
                  ((claim.valueType == "attachment" && !value.Obj?) ||
                   (claim.mask != [] && (|claim.mask| < 7 || lib.compile(claim.mask[6..|claim.mask| - 1]).None?))))
  {
    var claim, raw := config.claims[fieldName], lib.render(lib.lookup(c, fieldName));
    if |claim.mask| >= 7 {
      var n := |claim.mask| - 1;
      assert claim.mask == claim.mask[..6] + claim.mask[6..n] + [claim.mask[n]];
      Masking.MaskedValueIs(lib.compile, raw, claim.mask[..6], claim.mask[6..n], claim.mask[n], mask);
    }
  }

  /** A shown value never holds what its pattern captured, if the mask does not leak. */
  lemma ShownValueHides(lib: Library, c: Credential, config: Config, mask: Bytes, fieldName: string, data: ClaimData)
    requires fieldName in config.claims && Shows(lib, c, config, mask, fieldName, data)
    requires |config.claims[fieldName].mask| >= 7 && mask != []
    requires var pattern := config.claims[fieldName].mask;
             var captured := lib.compile(pattern[6..|pattern| - 1]).value(data.rawValue);
             captured != [] && !Masking.Leaks(captured, Masking.Masks(mask, |captured|))
    ensures var pattern := config.claims[fieldName].mask;
            var captured := lib.compile(pattern[6..|pattern| - 1]).value(data.rawValue);
            data.value.Some? && !Contains(data.value.value, captured)
  {
    var pattern := config.claims[fieldName].mask;
    var captured := lib.compile(pattern[6..|pattern| - 1]).value(data.rawValue);
    Masking.MaskedValueHides(data.rawValue, captured, mask, data.value.value);
  }

  // ---- what each implementation returns ------------------------------------------------------

  /** In one locale: every claim of the configuration that has data, once, labelled in the chosen locale. */
  ghost predicate ResolvesClaims(lib: Library, c: Credential, config: Config, mask: Bytes, locale: string,
                                 claims: seq<ResolvedClaim>) {
    && (forall i, j :: 0 <= i < j < |claims| ==> claims[i].data.rawID != claims[j].data.rawID)
    && (forall i :: 0 <= i < |claims| ==> ResolvedFrom(lib, c, config, mask, locale, claims[i]))
    && (forall fieldName :: fieldName in config.claims && HasData(lib, c, config, mask, fieldName) ==>
          exists i :: 0 <= i < |claims| && claims[i].data.rawID == fieldName)
  }

  ghost predicate HasData(lib: Library, c: Credential, config: Config, mask: Bytes, fieldName: string)
    requires fieldName in config.claims
  {
    var data := DataOf(lib, c, config, mask, fieldName); data.Ok? && data.value.Some?
  }

  ghost predicate ResolvedFrom(lib: Library, c: Credential, config: Config, mask: Bytes, locale: string,
                               claim: ResolvedClaim) {
    var fieldName := claim.data.rawID;
    && fieldName in config.claims
    && DataOf(lib, c, config, mask, fieldName) == Ok(Some(claim.data))
    && config.claims[fieldName].displays != []
    && var displays := config.claims[fieldName].displays;
       var i := Choose(displays, locale);
       claim.labelText == displays[i].name && claim.locale == displays[i].locale
  }

  /** A field is left out of the all-locale result when it is about the credential, not about its subject. */
  predicate Considered(skip: bool, fieldName: string) {
    !(skip && HasPrefix(fieldName, "$.") && !HasPrefix(fieldName, SUBJECT_PATH))
  }

  /** With the option to skip, paths are left out unless they lead into the subject; plain names never are. */
  lemma ConsideredExactlyWhen(fieldName: string)
    ensures Considered(false, fieldName)
    ensures !Considered(true, fieldName) <==> "$." <= fieldName && !("credentialSubject." <= fieldName[2..])
  {
    if "$." <= fieldName {
      var rest := fieldName[2..];
      assert fieldName == "$." + rest && SUBJECT_PATH == "$." + "credentialSubject.";
      if "credentialSubject." <= rest {
        assert fieldName[..|SUBJECT_PATH|] == SUBJECT_PATH;
      }
    }
  }

  /** In all locales: every considered claim of the configuration that has data, once, with all its labels. */
  ghost predicate ResolvesAllLocale(lib: Library, c: Credential, config: Config, mask: Bytes, skip: bool,
                                    subject: seq<SubjectClaim>) {
    && (forall i, j :: 0 <= i < j < |subject| ==> subject[i].data.rawID != subject[j].data.rawID)
    && (forall i :: 0 <= i < |subject| ==> AllLocaleFrom(lib, c, config, mask, skip, subject[i]))
    && (forall fieldName ::
          fieldName in config.claims && Considered(skip, fieldName) && HasData(lib, c, config, mask, fieldName) ==>
          exists i :: 0 <= i < |subject| && subject[i].data.rawID == fieldName)
  }

  ghost predicate AllLocaleFrom(lib: Library, c: Credential, config: Config, mask: Bytes, skip: bool,
                                claim: SubjectClaim) {
    var fieldName := claim.data.rawID;
    && fieldName in config.claims && Considered(skip, fieldName)
    && DataOf(lib, c, config, mask, fieldName) == Ok(Some(claim.data))
    && claim.labels == config.claims[fieldName].displays != []
  }

  /** The fields whose resolution stops the whole credential, in each implementation. */
  ghost predicate Resolvable(lib: Library, c: Credential, config: Config, mask: Bytes, skip: bool) {
    forall fieldName :: fieldName in config.claims && Considered(skip, fieldName) ==>
      DataOf(lib, c, config, mask, fieldName).Ok?
  }

  // ---- the law: choosing a locale commutes with resolving ------------------------------------

  /** Choosing a locale in an all-locale claim. */
  function SelectClaim(claim: SubjectClaim, locale: string): ResolvedClaim
    requires claim.labels != []
  {
    var i := Choose(claim.labels, locale);
    ResolvedClaim(claim.labels[i].name, claim.labels[i].locale, claim.data)
  }

  /** Choosing a locale in a list of localized displays. */
  function SelectDisplay(displays: seq<Localized>, locale: string): Option<Localized> {
    if displays == [] then None else Some(displays[Choose(LabelsOf(displays), locale)])
  }

  /** Choosing a locale in every all-locale claim. */
  function SelectClaims(subject: seq<SubjectClaim>, locale: string): seq<ResolvedClaim>
    requires forall i :: 0 <= i < |subject| ==> subject[i].labels != []
  {
    seq(|subject|, i requires 0 <= i < |subject| => SelectClaim(subject[i], locale))
  }

  function ConsideredClaims(skip: bool, claims: seq<ResolvedClaim>): seq<ResolvedClaim> {
    if claims == [] then []
    else (if Considered(skip, claims[0].data.rawID) then [claims[0]] else []) + ConsideredClaims(skip, claims[1..])
  }

  /** Up to order, the considered claims of the one list are the selections from the other, one for one. */
  ghost predicate SelectsTo(subject: seq<SubjectClaim>, locale: string, skip: bool, claims: seq<ResolvedClaim>) {
    && (forall i :: 0 <= i < |subject| ==> subject[i].labels != [])
    && multiset(SelectClaims(subject, locale)) == multiset(ConsideredClaims(skip, claims))
  }

  ghost predicate DistinctFields(claims: seq<ResolvedClaim>) {
    forall i, j :: 0 <= i < j < |claims| ==> claims[i].data.rawID != claims[j].data.rawID
  }

  lemma {:induction false} ConsideredClaimsAre(skip: bool, claims: seq<ResolvedClaim>)
    requires DistinctFields(claims)
    ensures DistinctFields(ConsideredClaims(skip, claims))
    ensures forall c :: c in ConsideredClaims(skip, claims) <==> c in claims && Considered(skip, c.data.rawID)
  {
    if claims != [] {
      ConsideredClaimsAre(skip, claims[1..]);
      assert claims == [claims[0]] + claims[1..];
      assert forall c :: c in claims[1..] ==> c.data.rawID != claims[0].data.rawID;
    }
  }

  lemma {:induction false} OccursOnce(claims: seq<ResolvedClaim>, c: ResolvedClaim)
    requires DistinctFields(claims)
    ensures multiset(claims)[c] == if c in claims then 1 else 0
  {
    if claims != [] {
      OccursOnce(claims[1..], c);
      assert claims == [claims[0]] + claims[1..];
      assert claims[0] !in claims[1..];
    }
  }

  lemma {:induction false} SameClaimsOnce(a: seq<ResolvedClaim>, b: seq<ResolvedClaim>)
    requires DistinctFields(a) && DistinctFields(b)
    requires forall c :: c in a <==> c in b
    ensures multiset(a) == multiset(b)
  {
    forall c: ResolvedClaim
      ensures multiset(a)[c] == multiset(b)[c]
    {
      OccursOnce(a, c);
      OccursOnce(b, c);
    }
  }

  lemma SelectedIsResolved(lib: Library, c: Credential, config: Config, mask: Bytes, locale: string, skip: bool,
                           claims: seq<ResolvedClaim>, claim: SubjectClaim)
    requires ResolvesClaims(lib, c, config, mask, locale, claims)
    requires AllLocaleFrom(lib, c, config, mask, skip, claim)
    ensures SelectClaim(claim, locale) in claims
  {
    assert HasData(lib, c, config, mask, claim.data.rawID);
    var j :| 0 <= j < |claims| && claims[j].data.rawID == claim.data.rawID;
    assert ResolvedFrom(lib, c, config, mask, locale, claims[j]);
    assert claims[j] == SelectClaim(claim, locale);
  }

  lemma ResolvedIsSelected(lib: Library, c: Credential, config: Config, mask: Bytes, locale: string, skip: bool,
                           subject: seq<SubjectClaim>, claim: ResolvedClaim) returns (i: nat)
    requires ResolvesAllLocale(lib, c, config, mask, skip, subject)
    requires ResolvedFrom(lib, c, config, mask, locale, claim) && Considered(skip, claim.data.rawID)
    ensures i < |subject| && subject[i].labels != [] && SelectClaim(subject[i], locale) == claim
  {
    assert HasData(lib, c, config, mask, claim.data.rawID);
    i :| 0 <= i < |subject| && subject[i].data.rawID == claim.data.rawID;
    assert AllLocaleFrom(lib, c, config, mask, skip, subject[i]);
  }

  lemma {:induction false} SelectionCommutes(lib: Library, c: Credential, config: Config, mask: Bytes, locale: string,
                                             skip: bool, claims: seq<ResolvedClaim>, subject: seq<SubjectClaim>)
    requires ResolvesClaims(lib, c, config, mask, locale, claims)
    requires ResolvesAllLocale(lib, c, config, mask, skip, subject)
    ensures SelectsTo(subject, locale, skip, claims)
  {
    assert forall i :: 0 <= i < |subject| ==> AllLocaleFrom(lib, c, config, mask, skip, subject[i]);
    var chosen, considered := SelectClaims(subject, locale), ConsideredClaims(skip, claims);
    ConsideredClaimsAre(skip, claims);
    forall i | 0 <= i < |subject|
      ensures chosen[i] in considered
    {
      SelectedIsResolved(lib, c, config, mask, locale, skip, claims, subject[i]);
    }
    forall claim | claim in considered
      ensures claim in chosen
    {
      var j :| 0 <= j < |claims| && claims[j] == claim;
      var i := ResolvedIsSelected(lib, c, config, mask, locale, skip, subject, claims[j]);
      assert chosen[i] == claim;
    }
    SameClaimsOnce(chosen, considered);
  }

  // ---- whole results -------------------------------------------------------------------------

  /** The credential has what both implementations need: itself, a display copy, and one subject. */
  predicate Displayable(m: Mapping) {
    m.credential.Some? && m.credential.value.subjects.Some? && |m.credential.value.subjects.value| == 1
  }

  /** Without a configuration the display shows the subject's ID, if it has one, and then each of its own fields once,
      under the credential's ID. */
  ghost predicate DefaultDisplay(lib: Library, c: Credential, d: CredentialDisplay)
    requires c.subjects.Some? && |c.subjects.value| == 1
  {
    var subject := c.subjects.value[0];
    var n := if subject.id == "" then 0 else 1;
    && d.overview == Localized(c.id, "", "", None, "", "")
    && n <= |d.claims|
    && (n == 1 ==> PlainClaim("id", lib.render(Str(subject.id)), "string", d.claims[0]))
    && DistinctFields(d.claims[n..])
    && (forall claim :: claim in d.claims[n..] <==> DefaultFieldClaim(lib, subject, claim))
  }

  ghost predicate DefaultFieldClaim(lib: Library, subject: Subject, claim: ResolvedClaim) {
    claim.data.rawID in subject.customFields &&
    PlainClaim(claim.data.rawID, lib.render(subject.customFields[claim.data.rawID]), "", claim)
  }

  /** A claim that shows a value under a name, and nothing else. */
  predicate PlainClaim(name: string, rawValue: Bytes, valueType: string, claim: ResolvedClaim) {
    && claim.labelText == "" && claim.locale == ""
    && claim.data.rawID == name && claim.data.rawValue == rawValue && claim.data.valueType == valueType
    && claim.data.order.None? && claim.data.value.None? && claim.data.attachment.None?
    && claim.data.pattern == "" && claim.data.mask == []
  }

  function DefaultClaim(name: string, rawValue: Bytes, valueType: string): ResolvedClaim {
    ResolvedClaim("", "", ClaimData(name, valueType, None, rawValue, None, "", [], None))
  }

  ghost predicate Displays(lib: Library, m: Mapping, mask: Bytes, locale: string, d: CredentialDisplay) {
    && Displayable(m)
    && match m.config
       case None => DefaultDisplay(lib, m.credential.value, d)
       case Some(config) =>
         && ResolvesClaims(lib, m.credential.value, config, mask, locale, d.claims)
         && Resolvable(lib, m.credential.value, config, mask, false)
         && (config.displays == [] ==> d.overview == Localized("", "", "", None, "", ""))
         && (config.displays != [] ==> SelectDisplay(config.displays, locale) == Some(d.overview))
  }

  ghost predicate DisplaysAllLocale(lib: Library, m: Mapping, mask: Bytes, skip: bool, d: CredentialAllLocale) {
    && Displayable(m) && m.config.Some?
    && ResolvesAllLocale(lib, m.credential.value, m.config.value, mask, skip, d.subject)
    && Resolvable(lib, m.credential.value, m.config.value, mask, skip)
    && d.overviews == m.config.value.displays
  }

  predicate CanDisplay(lib: Library, m: Mapping, mask: Bytes) {
    Displayable(m) &&
    (m.config.Some? ==> forall fieldName :: fieldName in m.config.value.claims ==>
       DataOf(lib, m.credential.value, m.config.value, mask, fieldName).Ok?)
  }

  predicate CanDisplayAllLocale(lib: Library, m: Mapping, mask: Bytes, skip: bool) {
    Displayable(m) && m.config.Some? &&
    forall fieldName :: fieldName in m.config.value.claims && Considered(skip, fieldName) ==>
      DataOf(lib, m.credential.value, m.config.value, mask, fieldName).Ok?
  }

  datatype ResolvedDisplay = ResolvedDisplay(issuer: Option<Localized>, credentials: seq<CredentialDisplay>)
  datatype ResolvedData = ResolvedData(issuers: seq<Localized>, credentials: seq<CredentialAllLocale>)

  /** What Resolve promises. */
  ghost predicate SingleLocaleResult(lib: Library, issuers: seq<Localized>, ms: seq<Mapping>, mask: Bytes, locale: string,
                                     r: Outcome<ResolvedDisplay, string>) {
    && (r.Ok? <==> forall i :: 0 <= i < |ms| ==> CanDisplay(lib, ms[i], mask))
    && (r.Ok? ==>
          && r.value.issuer == SelectDisplay(issuers, locale)
          && |r.value.credentials| == |ms|
          && forall i :: 0 <= i < |ms| ==> Displays(lib, ms[i], mask, locale, r.value.credentials[i]))
  }

  /** What ResolveCredential promises. */
  ghost predicate AllLocaleResult(lib: Library, issuers: seq<Localized>, ms: seq<Mapping>, mask: Bytes, skip: bool,
                                  r: Outcome<ResolvedData, string>) {
    && (r.Ok? <==> forall i :: 0 <= i < |ms| ==> CanDisplayAllLocale(lib, ms[i], mask, skip))
    && (r.Ok? ==>
          && r.value.issuers == issuers
          && |r.value.credentials| == |ms|
          && forall i :: 0 <= i < |ms| ==> DisplaysAllLocale(lib, ms[i], mask, skip, r.value.credentials[i]))
  }

  /** Without the skip option, all-locale resolution succeeds exactly when single-locale resolution does and every
      credential has a configuration. Where both succeed, choosing the locale from the all-locale result gives the
      issuer, and for each credential with a configuration the overview and, one for one, the considered claims of the
      single-locale result. */
  ghost predicate Commutes(ms: seq<Mapping>, locale: string, skip: bool, single: Outcome<ResolvedDisplay, string>,
                           all: Outcome<ResolvedData, string>) {
    && (!skip ==> (all.Ok? <==> single.Ok? && forall i :: 0 <= i < |ms| ==> ms[i].config.Some?))
    && (single.Ok? && (forall i :: 0 <= i < |ms| ==> ms[i].config.Some?) ==> all.Ok?)
    && (single.Ok? && all.Ok? ==>
          && SelectDisplay(all.value.issuers, locale) == single.value.issuer
          && |single.value.credentials| == |all.value.credentials| == |ms|
          && forall i :: 0 <= i < |ms| ==>
               CredentialCommutes(single.value.credentials[i], all.value.credentials[i], locale, skip))
  }

  ghost predicate CredentialCommutes(one: CredentialDisplay, every: CredentialAllLocale, locale: string, skip: bool) {
    && (every.overviews == [] ==> one.overview == NO_OVERVIEW)
    && (every.overviews != [] ==> SelectDisplay(every.overviews, locale) == Some(one.overview))
    && SelectsTo(every.subject, locale, skip, one.claims)
  }

  /** The two implementations agree, for every metadata, every credential, every mask and every locale. */
  lemma LocaleSelectionCommutes(lib: Library, issuers: seq<Localized>, ms: seq<Mapping>, mask: Bytes, locale: string,
                                skip: bool, single: Outcome<ResolvedDisplay, string>, all: Outcome<ResolvedData, string>)
    requires SingleLocaleResult(lib, issuers, ms, mask, locale, single)
    requires AllLocaleResult(lib, issuers, ms, mask, skip, all)
    ensures Commutes(ms, locale, skip, single, all)
  {
    assert forall i :: 0 <= i < |ms| ==>
        (!skip ==> (CanDisplayAllLocale(lib, ms[i], mask, skip) <==>
                    CanDisplay(lib, ms[i], mask) && ms[i].config.Some?)) &&
        (CanDisplay(lib, ms[i], mask) && ms[i].config.Some? ==> CanDisplayAllLocale(lib, ms[i], mask, skip));
    if single.Ok? && all.Ok? {
      forall i | 0 <= i < |ms|
        ensures CredentialCommutes(single.value.credentials[i], all.value.credentials[i], locale, skip)
      {
        assert Displays(lib, ms[i], mask, locale, single.value.credentials[i]);
        assert DisplaysAllLocale(lib, ms[i], mask, skip, all.value.credentials[i]);
        SelectionCommutes(lib, ms[i].credential.value, ms[i].config.value, mask, locale, skip,
                          single.value.credentials[i].claims, all.value.credentials[i].subject);
      }
    }
  }

  /** No map order changes the value of any configured field. */
  ghost predicate AllDetermined(lib: Library, m: Mapping) {
    Displayable(m) && m.config.Some? ==>
      var c := m.credential.value;
      forall fieldName :: fieldName in m.config.value.claims ==>
        Determined(lib.jsonPath, c.raw, c.subjects.value[0], fieldName)
  }

  /** They agree even when the two runs visit the maps in different orders, as long as no order changes the value of a
      configured field. */
  lemma CommutesAcrossSearches(lib: Library, lookup': (Credential, string) -> Json, issuers: seq<Localized>,
                               ms: seq<Mapping>, mask: Bytes, locale: string, skip: bool,
                               single: Outcome<ResolvedDisplay, string>, all: Outcome<ResolvedData, string>)
    requires Searches(lib) && Searches(lib.(lookup := lookup'))
    requires forall i :: 0 <= i < |ms| ==> AllDetermined(lib, ms[i])
    requires SingleLocaleResult(lib, issuers, ms, mask, locale, single)
    requires AllLocaleResult(lib.(lookup := lookup'), issuers, ms, mask, skip, all)
    ensures Commutes(ms, locale, skip, single, all)
  {
    var lib' := lib.(lookup := lookup');
    forall i | 0 <= i < |ms|
      ensures CanDisplayAllLocale(lib, ms[i], mask, skip) <==> CanDisplayAllLocale(lib', ms[i], mask, skip)
      ensures forall d :: DisplaysAllLocale(lib', ms[i], mask, skip, d) ==> DisplaysAllLocale(lib, ms[i], mask, skip, d)
    {
      SameResults(lib, lib', ms[i], mask, skip);
    }
    LocaleSelectionCommutes(lib, issuers, ms, mask, locale, skip, single, all);
  }

  lemma SameResults(lib: Library, lib': Library, m: Mapping, mask: Bytes, skip: bool)
    requires lib' == lib.(lookup := lib'.lookup) && Searches(lib) && Searches(lib') && AllDetermined(lib, m)
    ensures CanDisplayAllLocale(lib, m, mask, skip) <==> CanDisplayAllLocale(lib', m, mask, skip)
    ensures forall d :: DisplaysAllLocale(lib', m, mask, skip, d) ==> DisplaysAllLocale(lib, m, mask, skip, d)
  {
    if Displayable(m) && m.config.Some? {
      var c, config := m.credential.value, m.config.value;
      forall fieldName | fieldName in config.claims
        ensures DataOf(lib, c, config, mask, fieldName) == DataOf(lib', c, config, mask, fieldName)
      {
        assert Determined(lib.jsonPath, c.raw, c.subjects.value[0], fieldName);
        assert FieldValue(lib.jsonPath, c.raw, c.subjects.value[0], fieldName, lib.lookup(c, fieldName));
        assert FieldValue(lib.jsonPath, c.raw, c.subjects.value[0], fieldName, lib'.lookup(c, fieldName));
        SameData(lib, lib', c, config, mask, fieldName);
      }
      forall d | DisplaysAllLocale(lib', m, mask, skip, d)
        ensures ResolvesAllLocale(lib, c, config, mask, skip, d.subject)
      {
        SameClaims(lib, lib', c, config, mask, skip, d.subject);
      }
    }
  }

  lemma SameData(lib: Library, lib': Library, c: Credential, config: Config, mask: Bytes, fieldName: string)
    requires lib' == lib.(lookup := lib'.lookup) && lib.lookup(c, fieldName) == lib'.lookup(c, fieldName)
    requires fieldName in config.claims
    ensures DataOf(lib, c, config, mask, fieldName) == DataOf(lib', c, config, mask, fieldName)
  {
  }

  lemma SameClaims(lib: Library, lib': Library, c: Credential, config: Config, mask: Bytes, skip: bool,
                   subject: seq<SubjectClaim>)
    requires forall fieldName :: fieldName in config.claims ==>
               DataOf(lib, c, config, mask, fieldName) == DataOf(lib', c, config, mask, fieldName)
    requires ResolvesAllLocale(lib', c, config, mask, skip, subject)
    ensures ResolvesAllLocale(lib, c, config, mask, skip, subject)
  {
    forall i | 0 <= i < |subject|
      ensures AllLocaleFrom(lib, c, config, mask, skip, subject[i])
    {
      assert AllLocaleFrom(lib', c, config, mask, skip, subject[i]);
    }
    forall fieldName |
        fieldName in config.claims && Considered(skip, fieldName) && HasData(lib, c, config, mask, fieldName)
      ensures exists i :: 0 <= i < |subject| && subject[i].data.rawID == fieldName
    {
      assert HasData(lib', c, config, mask, fieldName);
    }
  }
}
