/** The two implementations of display resolution, one for a single locale and one for all, in the form the program gives
    them: loops that search and append. Go visits a map in no fixed order; the loops below pick any remaining key. */
module Display {
  import opened Outcomes
  import opened GoText
  import opened ClaimSearch
  import opened DisplayModel
  import Masking

  type Resolution<T> = Outcome<Option<T>, string>

  // ---- single locale -------------------------------------------------------------------------

  method GetLocalizedLabel(preferredLocale: string, claim: Claim) returns (name: string, locale: string)
    requires claim.displays != []
    ensures var i := Choose(claim.displays, preferredLocale);
            name == claim.displays[i].name && locale == claim.displays[i].locale
    ensures exists i :: 0 <= i < |claim.displays| && Label(name, locale) == claim.displays[i] &&
              IsChosen(claim.displays, (l: Label) => l.locale, preferredLocale, i)
  {
    ChooseIsChosen(claim.displays, preferredLocale);
    var preferred := if preferredLocale == "" then "en-US" else preferredLocale;
    for i := 0 to |claim.displays|
      invariant forall j :: 0 <= j < i ==> !EqualFold(claim.displays[j].locale, preferred)
    {
      if EqualFold(preferred, claim.displays[i].locale) {
        FirstMatchIs(claim.displays, preferred, i);
        return claim.displays[i].name, claim.displays[i].locale;
      }
    }
    return claim.displays[0].name, claim.displays[0].locale;
  }

  method GetDisplay(displays: seq<Localized>, preferredLocale: string) returns (display: Option<Localized>)
    ensures display == SelectDisplay(displays, preferredLocale)
    ensures IsDisplayFor(displays, preferredLocale, display)
  {
    display := FirstDisplay(displays, preferredLocale);
    SelectedIsChosen(displays, preferredLocale);
  }

  method FirstDisplay(displays: seq<Localized>, preferredLocale: string) returns (display: Option<Localized>)
    ensures display == SelectDisplay(displays, preferredLocale)
  {
    if |displays| == 0 {
      return None;
    }
    var preferred := if preferredLocale == "" then "en-US" else preferredLocale;
    for i := 0 to |displays|
      invariant forall j :: 0 <= j < i ==> !EqualFold(displays[j].locale, preferred)
    {
      if EqualFold(displays[i].locale, preferred) {
        FirstMatchIs(LabelsOf(displays), preferred, i);
        return Some(displays[i]);
      }
    }
    return Some(displays[0]);
  }

  method ClaimOrderAsInt(order: seq<string>, claimName: string) returns (r: Option<nat>)
    ensures r == OrderOf(order, claimName)
  {
    for i := 0 to |order|
      invariant claimName !in order[..i]
    {
      if order[i] == claimName {
        FirstIndexIs(order, claimName, i);
        return Some(i);
      }
    }
    assert order[..|order|] == order;
    return None;
  }

  method ResolveClaim(lib: Library, c: Credential, config: Config, mask: Bytes, locale: string, fieldName: string)
    returns (r: Resolution<ResolvedClaim>)
    requires fieldName in config.claims
    ensures r.Ok? || r.FailedLike(DataOf(lib, c, config, mask, fieldName))
    ensures r.Ok? ==> DataOf(lib, c, config, mask, fieldName).Ok?
    ensures r.Ok? ==> (r.value.Some? <==> HasData(lib, c, config, mask, fieldName))
    ensures r.Ok? && r.value.Some? ==>
              r.value.value.data.rawID == fieldName && ResolvedFrom(lib, c, config, mask, locale, r.value.value)
    ensures r.Ok? && r.value.Some? ==> Shows(lib, c, config, mask, fieldName, r.value.value.data)
  {
    DataShows(lib, c, config, mask, fieldName);
    var claim := config.claims[fieldName];
    if |claim.displays| == 0 {
      return Ok(None);
    }
    var labelText, labelLocale := GetLocalizedLabel(locale, claim);
    var untypedValue := lib.lookup(c, fieldName);
    if untypedValue == Null {
      return Ok(None);
    }
    var attachment: Option<Attachment> := None;
    if claim.valueType == "attachment" {
      match untypedValue {
        case Obj(_) => attachment := Some(lib.decode(untypedValue));
        case _ => return Err("unsupported attachment value");
      }
    }
    var rawValue := lib.render(untypedValue);
    var value: Option<Bytes> := None;
    if claim.mask != [] {
      var maskedValue := Masking.GetMaskedValue(lib.compile, rawValue, claim.mask, mask);
      match maskedValue {
        case Ok(masked) => value := Some(masked);
        case Err(error) => return Err(error);
        case Panic => return Panic;
      }
    }
    var order := ClaimOrderAsInt(config.order, fieldName);
    return Ok(Some(ResolvedClaim(labelText, labelLocale,
      ClaimData(fieldName, claim.valueType, order, rawValue, value, claim.pattern, claim.mask, attachment))));
  }

  method ResolveClaims(lib: Library, c: Credential, config: Config, mask: Bytes, locale: string)
    returns (r: Outcome<seq<ResolvedClaim>, string>)
    ensures r.Ok? <==> Resolvable(lib, c, config, mask, false)
    ensures r.Ok? || exists fieldName ::
              fieldName in config.claims && r.FailedLike(DataOf(lib, c, config, mask, fieldName))
    ensures r.Ok? ==> ResolvesClaims(lib, c, config, mask, locale, r.value)
  {
    var resolvedClaims: seq<ResolvedClaim> := [];
    var rest := config.claims.Keys;
    while rest != {}
      invariant rest <= config.claims.Keys
      invariant forall fieldName :: fieldName in config.claims.Keys - rest ==> DataOf(lib, c, config, mask, fieldName).Ok?
      invariant forall i, j :: 0 <= i < j < |resolvedClaims| ==>
                  resolvedClaims[i].data.rawID != resolvedClaims[j].data.rawID
      invariant forall i :: 0 <= i < |resolvedClaims| ==>
                  resolvedClaims[i].data.rawID !in rest && ResolvedFrom(lib, c, config, mask, locale, resolvedClaims[i])
      invariant forall fieldName :: fieldName in config.claims.Keys - rest && HasData(lib, c, config, mask, fieldName) ==>
                  exists i :: 0 <= i < |resolvedClaims| && resolvedClaims[i].data.rawID == fieldName
    {
      var fieldName :| fieldName in rest;
      var resolvedClaim := ResolveClaim(lib, c, config, mask, locale, fieldName);
      match resolvedClaim {
        case Err(error) =>
          assert Considered(false, fieldName);
          return Err(error);
        case Panic =>
          assert Considered(false, fieldName);
          return Panic;
        case Ok(claim) =>
          rest := rest - {fieldName};
          if claim.Some? {
            ghost var before := resolvedClaims;
            resolvedClaims := resolvedClaims + [claim.value];
            assert resolvedClaims[|before|].data.rawID == fieldName;
            assert forall i :: 0 <= i < |before| ==> resolvedClaims[i] == before[i];
          }
      }
    }
    return Ok(resolvedClaims);
  }

  method BuildDefaultCredentialDisplay(lib: Library, c: Credential) returns (d: CredentialDisplay)
    requires c.subjects.Some? && |c.subjects.value| == 1
    ensures DefaultDisplay(lib, c, d)
  {
    var subject := c.subjects.value[0];
    var idClaims: seq<ResolvedClaim> := [];
    if subject.id != "" {
      idClaims := [DefaultClaim("id", lib.render(Str(subject.id)), "string")];
    }
    var fieldClaims: seq<ResolvedClaim> := [];
    var rest := subject.customFields.Keys;
    while rest != {}
      invariant rest <= subject.customFields.Keys
      invariant DistinctFields(fieldClaims)
      invariant forall claim :: claim in fieldClaims <==>
                  claim.data.rawID !in rest && DefaultFieldClaim(lib, subject, claim)
    {
      var name :| name in rest;
      rest := rest - {name};
      var claim := DefaultClaim(name, lib.render(subject.customFields[name]), "");
      assert PlainClaim(name, lib.render(subject.customFields[name]), "", claim);
      assert forall i :: 0 <= i < |fieldClaims| ==> fieldClaims[i] in fieldClaims;
      fieldClaims := fieldClaims + [claim];
    }
    d := CredentialDisplay(NO_OVERVIEW.(name := c.id), idClaims + fieldClaims);
    assert d.claims[|idClaims|..] == fieldClaims;
  }

  method BuildCredentialDisplays(lib: Library, ms: seq<Mapping>, mask: Bytes, locale: string)
    returns (r: Outcome<seq<CredentialDisplay>, string>)
    ensures r.Ok? <==> forall i :: 0 <= i < |ms| ==> CanDisplay(lib, ms[i], mask)
    ensures r.Ok? ==> |r.value| == |ms|
    ensures r.Ok? ==> forall i :: 0 <= i < |ms| ==> Displays(lib, ms[i], mask, locale, r.value[i])
  {
    var credentialDisplays: seq<CredentialDisplay> := [];
    for i := 0 to |ms|
      invariant |credentialDisplays| == i
      invariant forall j :: 0 <= j < i ==>
                  CanDisplay(lib, ms[j], mask) && Displays(lib, ms[j], mask, locale, credentialDisplays[j])
    {
      var built := BuildOne(lib, ms[i], mask, locale);
      match built {
        case Ok(d) => credentialDisplays := credentialDisplays + [d];
        case Err(error) => return Err(error);
        case Panic => return Panic;
      }
    }
    return Ok(credentialDisplays);
  }

  method BuildOne(lib: Library, m: Mapping, mask: Bytes, locale: string) returns (r: Outcome<CredentialDisplay, string>)
    ensures r.Ok? <==> CanDisplay(lib, m, mask)
    ensures r.Ok? ==>
              m.credential.Some? && m.credential.value.subjects.Some? && |m.credential.value.subjects.value| == 1
    ensures r.Ok? ==> Displays(lib, m, mask, locale, r.value)
  {
    if m.credential.None? {
      return Err("no credential specified");
    }
    var vc := m.credential.value;
    if vc.subjects.None? {
      return Err("no display credential");
    }
    if |vc.subjects.value| != 1 {
      return Err("only VCs with one credential subject are supported");
    }
    if m.config.None? {
      var d := BuildDefaultCredentialDisplay(lib, vc);
      return Ok(d);
    }
    var config := m.config.value;
    var claims := ResolveClaims(lib, vc, config, mask, locale);
    match claims {
      case Err(error) => return Err(error);
      case Panic => return Panic;
      case Ok(resolved) =>
        var overview := GetDisplay(config.displays, locale);
        assert forall fieldName :: fieldName in config.claims ==> Considered(false, fieldName);
        return Ok(CredentialDisplay(if overview.Some? then overview.value else NO_OVERVIEW, resolved));
    }
  }

  method Resolve(lib: Library, issuers: seq<Localized>, ms: seq<Mapping>, mask: Bytes, locale: string)
    returns (r: Outcome<ResolvedDisplay, string>)
    ensures SingleLocaleResult(lib, issuers, ms, mask, locale, r)
  {
    var credentialDisplays := BuildCredentialDisplays(lib, ms, mask, locale);
    match credentialDisplays {
      case Err(error) => return Err(error);
      case Panic => return Panic;
      case Ok(displays) =>
        var issuerOverview := GetDisplay(issuers, locale);
        return Ok(ResolvedDisplay(issuerOverview, displays));
    }
  }

  // ---- all locales ---------------------------------------------------------------------------

  method ResolveClaimAllLocale(lib: Library, c: Credential, config: Config, mask: Bytes, fieldName: string)
    returns (r: Resolution<SubjectClaim>)
    requires fieldName in config.claims
    ensures r.Ok? || r.FailedLike(DataOf(lib, c, config, mask, fieldName))
    ensures r.Ok? ==> DataOf(lib, c, config, mask, fieldName).Ok?
    ensures r.Ok? ==> (r.value.Some? <==> HasData(lib, c, config, mask, fieldName))
    ensures r.Ok? && r.value.Some? ==>
              r.value.value.data.rawID == fieldName && AllLocaleFrom(lib, c, config, mask, false, r.value.value)
    ensures r.Ok? && r.value.Some? ==> Shows(lib, c, config, mask, fieldName, r.value.value.data)
  {
    DataShows(lib, c, config, mask, fieldName);
    var claim := config.claims[fieldName];
    if |claim.displays| == 0 {
      return Ok(None);
    }
    var labels: seq<Label> := [];
    for i := 0 to |claim.displays|
      invariant labels == claim.displays[..i]
    {
      labels := labels + [Label(claim.displays[i].name, claim.displays[i].locale)];
    }
    assert labels == claim.displays;
    var untypedValue := lib.lookup(c, fieldName);
    if untypedValue == Null {
      return Ok(None);
    }
    var attachment: Option<Attachment> := None;
    if claim.valueType == "attachment" {
      match untypedValue {
        case Obj(_) => attachment := Some(lib.decode(untypedValue));
        case _ => return Err("unsupported attachment value");
      }
    }
    var rawValue := lib.render(untypedValue);
    var value: Option<Bytes> := None;
    if claim.mask != [] {
      var maskedValue := Masking.GetMaskedValue(lib.compile, rawValue, claim.mask, mask);
      match maskedValue {
        case Ok(masked) => value := Some(masked);
        case Err(error) => return Err(error);
        case Panic => return Panic;
      }
    }
    var order := ClaimOrderAsInt(config.order, fieldName);
    return Ok(Some(SubjectClaim(labels,
      ClaimData(fieldName, claim.valueType, order, rawValue, value, claim.pattern, claim.mask, attachment))));
  }

  method ResolveClaimsAllLocale(lib: Library, c: Credential, config: Config, mask: Bytes, skip: bool)
    returns (r: Outcome<seq<SubjectClaim>, string>)
    ensures r.Ok? <==> Resolvable(lib, c, config, mask, skip)
    ensures r.Ok? || exists fieldName ::
              fieldName in config.claims && r.FailedLike(DataOf(lib, c, config, mask, fieldName))
    ensures r.Ok? ==> ResolvesAllLocale(lib, c, config, mask, skip, r.value)
  {
    var resolvedClaims: seq<SubjectClaim> := [];
    var rest := config.claims.Keys;
    while rest != {}
      invariant rest <= config.claims.Keys
      invariant forall fieldName :: fieldName in config.claims.Keys - rest && Considered(skip, fieldName) ==>
                  DataOf(lib, c, config, mask, fieldName).Ok?
      invariant forall i, j :: 0 <= i < j < |resolvedClaims| ==>
                  resolvedClaims[i].data.rawID != resolvedClaims[j].data.rawID
      invariant forall i :: 0 <= i < |resolvedClaims| ==>
                  resolvedClaims[i].data.rawID !in rest && AllLocaleFrom(lib, c, config, mask, skip, resolvedClaims[i])
      invariant forall fieldName :: fieldName in config.claims.Keys - rest ==>
                  Considered(skip, fieldName) && HasData(lib, c, config, mask, fieldName) ==>
                  exists i :: 0 <= i < |resolvedClaims| && resolvedClaims[i].data.rawID == fieldName
    {
      var fieldName :| fieldName in rest;
      if skip && HasPrefix(fieldName, "$.") && !HasPrefix(fieldName, SUBJECT_PATH) {
        rest := rest - {fieldName};
        continue;
      }
      var resolvedClaim := ResolveClaimAllLocale(lib, c, config, mask, fieldName);
      match resolvedClaim {
        case Err(error) =>
          assert Considered(skip, fieldName);
          return Err(error);
        case Panic =>
          assert Considered(skip, fieldName);
          return Panic;
        case Ok(claim) =>
          rest := rest - {fieldName};
          if claim.Some? {
            ghost var before := resolvedClaims;
            resolvedClaims := resolvedClaims + [claim.value];
            assert resolvedClaims[|before|].data.rawID == fieldName;
            assert forall i :: 0 <= i < |before| ==> resolvedClaims[i] == before[i];
          }
      }
    }
    return Ok(resolvedClaims);
  }

  method CopyDisplays(displays: seq<Localized>) returns (copies: seq<Localized>)
    ensures copies == displays
  {
    copies := [];
    for i := 0 to |displays|
      invariant copies == displays[..i]
    {
      var v := displays[i];
      copies := copies + [Localized(v.name, v.locale, v.url, v.logo, v.backgroundColor, v.textColor)];
    }
  }

  method BuildOneAllLocale(lib: Library, m: Mapping, mask: Bytes, skip: bool)
    returns (r: Outcome<CredentialAllLocale, string>)
    ensures r.Ok? <==> CanDisplayAllLocale(lib, m, mask, skip)
    ensures r.Ok? ==>
              && m.credential.Some? && m.credential.value.subjects.Some? && |m.credential.value.subjects.value| == 1
              && m.config.Some?
    ensures r.Ok? ==> DisplaysAllLocale(lib, m, mask, skip, r.value)
  {
    if m.credential.None? {
      return Err("no credential specified");
    }
    if m.config.None? {
      return Err("no credential configuration specified");
    }
    var vc, config := m.credential.value, m.config.value;
    if vc.subjects.None? {
      return Err("no display credential");
    }
    if |vc.subjects.value| != 1 {
      return Err("only VCs with one credential subject are supported");
    }
    var claims := ResolveClaimsAllLocale(lib, vc, config, mask, skip);
    match claims {
      case Err(error) => return Err(error);
      case Panic => return Panic;
      case Ok(resolved) =>
        var overviews := CopyDisplays(config.displays);
        return Ok(CredentialAllLocale(overviews, resolved));
    }
  }

  method ResolveCredential(lib: Library, issuers: seq<Localized>, ms: seq<Mapping>, mask: Bytes, skip: bool)
    returns (r: Outcome<ResolvedData, string>)
    ensures AllLocaleResult(lib, issuers, ms, mask, skip, r)
  {
    var credentialDisplays: seq<CredentialAllLocale> := [];
    for i := 0 to |ms|
      invariant |credentialDisplays| == i
      invariant forall j :: 0 <= j < i ==>
                  && CanDisplayAllLocale(lib, ms[j], mask, skip)
                  && DisplaysAllLocale(lib, ms[j], mask, skip, credentialDisplays[j])
    {
      var built := BuildOneAllLocale(lib, ms[i], mask, skip);
      match built {
        case Ok(d) => credentialDisplays := credentialDisplays + [d];
        case Err(error) => return Err(error);
        case Panic => return Panic;
      }
    }
    var issuerOverview := CopyDisplays(issuers);
    return Ok(ResolvedData(issuerOverview, credentialDisplays));
  }
}
