/** The greeting selection of the message sender.

    `Send` reads the `x-real-ip` request header, asks the geo lookup for the
    location of that IP, and returns the localized greeting for the location's
    country, falling back to the greeting for USA whenever the IP is unusable,
    the lookup finds nothing or the location has no country. The two
    collaborators are parameters:
      byIp:   the geo lookup, None where it returns null;
      locale: the localization service. */
module MessageSender {
  import opened Wrappers
  import opened Entity

  /** The name of the header that carries the client IP. */
  const IP_ADDRESS_HEADER: string := "x-real-ip"

  /** The text Java's String.valueOf gives a null reference. */
  const NULL_TEXT: string := "null"

  /** GeoService.byIp: the location of an IP, None where it returns null. */
  type GeoLookup = string -> Option<Location>

  /** LocalizationService.locale: the greeting for a country. */
  type Localizer = Country -> string

  /** The header value as the sender reads it: String.valueOf of a map lookup,
      so a header that is not there reads as the four characters "null". */
  function HeaderText(headers: map<string, string>, name: string): string {
    if name in headers then headers[name] else NULL_TEXT
  }

  /** The IP guard. The text can never be a null reference (String.valueOf
      never returns one), so an IP is usable when it is neither empty nor the
      text "null". */
  predicate IsUsableIp(ip: string) {
    ip != "" && ip != NULL_TEXT
  }

  /** The argument `Send` hands to the geo lookup, or None when it does not
      consult the lookup at all. It is Some exactly when the header is there
      with a usable value, and then it is that value, unchanged. */
  function LookupKey(headers: map<string, string>): (key: Option<string>)
    ensures key.Some? <==> IP_ADDRESS_HEADER in headers && IsUsableIp(headers[IP_ADDRESS_HEADER])
    ensures key.Some? ==> key.value == headers[IP_ADDRESS_HEADER]
  {
    var ipAddress := HeaderText(headers, IP_ADDRESS_HEADER);
    if IsUsableIp(ipAddress) then Some(ipAddress) else None
  }

  /** Reference definition: the country whose greeting is sent, as a chain of
      optional steps (lookup key, location, country) that ends in USA wherever
      a step yields nothing. It restates the decision of `Send` in another
      shape, as a cross-check; the promised properties themselves are stated
      about `Send` directly by the lemmas below. */
  function GreetingCountry(headers: map<string, string>, byIp: GeoLookup): Country {
    match LookupKey(headers)
    case None => USA
    case Some(ip) =>
      match byIp(ip)
      case None => USA
      case Some(location) => location.country.GetOr(USA)
  }

  /** MessageSenderImpl.send: two nested guards, each ending in a call to
      `locale`. The result is always the greeting of GreetingCountry. */
  function Send(headers: map<string, string>, byIp: GeoLookup, locale: Localizer): (r: string)
    ensures r == locale(GreetingCountry(headers, byIp))
  {
    var ipAddress := HeaderText(headers, IP_ADDRESS_HEADER);
    if IsUsableIp(ipAddress) then
      var location := byIp(ipAddress);
      if location.Some? && location.value.country.Some? then
        locale(location.value.country.value)
      else
        locale(USA)
    else
      locale(USA)
  }

  // ---------------------------------------------------------------------
  // Fallback branches

  /** Without an `x-real-ip` header the greeting is the USA one, whatever the
      geo lookup would have answered: it is not consulted. */
  lemma MissingHeaderGreetsUsa(headers: map<string, string>, locale: Localizer)
    requires IP_ADDRESS_HEADER !in headers
    ensures forall byIp: GeoLookup :: Send(headers, byIp, locale) == locale(USA)
  {
  }

  /** An empty `x-real-ip` header gives the USA greeting, whatever the lookup. */
  lemma EmptyIpGreetsUsa(headers: map<string, string>, locale: Localizer)
    requires IP_ADDRESS_HEADER in headers && headers[IP_ADDRESS_HEADER] == ""
    ensures forall byIp: GeoLookup :: Send(headers, byIp, locale) == locale(USA)
  {
  }

  /** A header whose value is the text "null" behaves exactly like a missing
      header: both give the USA greeting. */
  lemma NullTextIsMissingHeader(headers: map<string, string>, byIp: GeoLookup, locale: Localizer)
    ensures Send(headers[IP_ADDRESS_HEADER := NULL_TEXT], byIp, locale)
         == Send(headers - {IP_ADDRESS_HEADER}, byIp, locale)
         == locale(USA)
  {
  }

  /** Whenever the lookup is not consulted, no answer it could give changes
      the greeting. */
  lemma UnusedLookupIsIrrelevant(headers: map<string, string>, locale: Localizer)
    requires LookupKey(headers).None?
    ensures forall byIp1: GeoLookup, byIp2: GeoLookup :: Send(headers, byIp1, locale) == Send(headers, byIp2, locale)
  {
  }

  /** A usable IP the lookup knows nothing about gives the USA greeting. */
  lemma UnknownIpGreetsUsa(headers: map<string, string>, byIp: GeoLookup, locale: Localizer)
    requires IP_ADDRESS_HEADER in headers && IsUsableIp(headers[IP_ADDRESS_HEADER])
    requires byIp(headers[IP_ADDRESS_HEADER]).None?
    ensures Send(headers, byIp, locale) == locale(USA)
  {
  }

  /** A usable IP resolved to a location without a country (localhost, say)
      gives the USA greeting. */
  lemma CountrylessLocationGreetsUsa(headers: map<string, string>, byIp: GeoLookup, locale: Localizer)
    requires IP_ADDRESS_HEADER in headers && IsUsableIp(headers[IP_ADDRESS_HEADER])
    requires byIp(headers[IP_ADDRESS_HEADER]).Some? && byIp(headers[IP_ADDRESS_HEADER]).value.country.None?
    ensures Send(headers, byIp, locale) == locale(USA)
  {
  }

  // ---------------------------------------------------------------------
  // The resolved branch

  /** A usable IP resolved to a location in country c gives exactly the
      greeting for c. */
  lemma ResolvedCountryGreets(headers: map<string, string>, byIp: GeoLookup, locale: Localizer, c: Country)
    requires IP_ADDRESS_HEADER in headers && IsUsableIp(headers[IP_ADDRESS_HEADER])
    requires byIp(headers[IP_ADDRESS_HEADER]).Some? && byIp(headers[IP_ADDRESS_HEADER]).value.country == Some(c)
    ensures Send(headers, byIp, locale) == locale(c)
  {
  }

  /** Only the lookup's answer for the header value itself matters: two
      lookups that agree there give the same greeting. */
  lemma LookupSeesOnlyHeaderValue(headers: map<string, string>, locale: Localizer)
    requires IP_ADDRESS_HEADER in headers && IsUsableIp(headers[IP_ADDRESS_HEADER])
    ensures forall byIp1: GeoLookup, byIp2: GeoLookup :: byIp1(headers[IP_ADDRESS_HEADER]) == byIp2(headers[IP_ADDRESS_HEADER])
              ==> Send(headers, byIp1, locale) == Send(headers, byIp2, locale)
  {
  }

  /** The header value reaches the lookup unmodified (no trimming, no prefix
      taken): two headers with different usable values can always be told
      apart by some lookup and some localization. */
  lemma DistinctIpsAreDistinguished(headers1: map<string, string>, headers2: map<string, string>)
    requires IP_ADDRESS_HEADER in headers1 && IsUsableIp(headers1[IP_ADDRESS_HEADER])
    requires HeaderText(headers2, IP_ADDRESS_HEADER) != headers1[IP_ADDRESS_HEADER]
    ensures exists byIp: GeoLookup, locale: Localizer :: Send(headers1, byIp, locale) != Send(headers2, byIp, locale)
  {
    var ip := headers1[IP_ADDRESS_HEADER];
    var byIp := (s: string) => if s == ip then Some(Location(None, Some(RUSSIA), None, 0)) else None;
    var locale := (c: Country) => if c == RUSSIA then "ru" else "en";
    assert Send(headers1, byIp, locale) == "ru";
    assert Send(headers2, byIp, locale) == "en";
  }

  /** For a usable IP, every country's greeting can come out: the lookup alone
      decides which. */
  lemma EveryCountryReachable(headers: map<string, string>, locale: Localizer, c: Country)
    requires IP_ADDRESS_HEADER in headers && IsUsableIp(headers[IP_ADDRESS_HEADER])
    ensures exists byIp: GeoLookup :: Send(headers, byIp, locale) == locale(c)
  {
    var byIp := (s: string) => Some(Location(None, Some(c), None, 0));
    assert Send(headers, byIp, locale) == locale(c);
  }

  // ---------------------------------------------------------------------
  // Whole contract

  /** The greeting is always the localization of some country: of the
      resolved country when there is one, of USA otherwise. `Send` never
      yields any other text. */
  lemma GreetingIsResolvedOrUsa(headers: map<string, string>, byIp: GeoLookup, locale: Localizer)
    ensures exists c: Country :: Send(headers, byIp, locale) == locale(c)
    ensures Send(headers, byIp, locale) == locale(USA)
         || exists loc: Location, c: Country :: LookupKey(headers).Some? && byIp(LookupKey(headers).value) == Some(loc)
                             && loc.country == Some(c) && Send(headers, byIp, locale) == locale(c)
  {
  }

  /** Headers other than `x-real-ip` never influence the greeting. */
  lemma OtherHeadersIgnored(headers: map<string, string>, name: string, value: string,
                            byIp: GeoLookup, locale: Localizer)
    requires name != IP_ADDRESS_HEADER
    ensures Send(headers[name := value], byIp, locale) == Send(headers, byIp, locale)
  {
  }

  /** Two header maps give the same greeting under every lookup and every
      localization exactly when they hand the lookup the same key (or both
      skip it): missing, empty and "null" are one case, and every usable value
      is a case of its own. */
  lemma BehaviourDeterminedByLookupKey(headers1: map<string, string>, headers2: map<string, string>)
    ensures (forall byIp: GeoLookup, locale: Localizer :: Send(headers1, byIp, locale) == Send(headers2, byIp, locale))
        <==> LookupKey(headers1) == LookupKey(headers2)
  {
    if LookupKey(headers1) != LookupKey(headers2) {
      if LookupKey(headers1).Some? {
        DistinctIpsAreDistinguished(headers1, headers2);
      } else {
        DistinctIpsAreDistinguished(headers2, headers1);
      }
    }
  }
}
