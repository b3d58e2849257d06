/** A vaccination centre as the public API describes it, and the display values
    derived from it. Every accessor is pure; the library behaviour the app
    relies on (URL parsing and validation, date and phone formatting, distance
    between two points) is passed in as a function. */
module Centre {
  import opened Support

  /** Geographic position and city; every part may be missing in the payload. */
  datatype Location = Location(longitude: Option<real>, latitude: Option<real>, city: Option<string>)

  /** Contact details; business hours map a day to its opening text. */
  datatype Metadata = Metadata(
    address: Option<string>,
    phoneNumber: Option<string>,
    businessHours: Option<map<string, Option<string>>>)

  /** One centre. `prochainRdv` is the raw next-appointment timestamp. */
  datatype VaccinationCentre = VaccinationCentre(
    departement: Option<string>,
    nom: Option<string>,
    url: Option<string>,
    location: Option<Location>,
    metadata: Option<Metadata>,
    prochainRdv: Option<string>,
    plateforme: Option<string>,
    centreType: Option<string>,
    appointmentCount: Option<int>,
    vaccineType: Option<seq<string>>)

  /** One API response: the update time and the two partitions of centres. */
  datatype VaccinationCentres = VaccinationCentres(
    lastUpdated: Option<string>,
    centresDisponibles: seq<VaccinationCentre>,
    centresIndisponibles: seq<VaccinationCentre>)

  /** A point on the map (`CLLocation`). */
  datatype GeoPoint = GeoPoint(latitude: real, longitude: real)

  /** The two renderings of the appointment timestamp: `.date(.long)` and `.time(.short)`. */
  datatype DateStyle = LongDate | ShortTime

  /** A centre is available exactly when it announces a next appointment. */
  predicate IsAvailable(c: VaccinationCentre) {
    c.prochainRdv.Some?
  }

  /** The day of the next appointment, rendered in the French region.
      `toText` stands for the date library's parse-and-format. */
  function NextAppointmentDay(c: VaccinationCentre, toText: (string, DateStyle) -> Option<string>): (r: Option<string>)
    ensures r.Some? ==> IsAvailable(c)
    ensures IsAvailable(c) ==> r == toText(c.prochainRdv.value, LongDate)
  {
    match c.prochainRdv
    case None => None
    case Some(rdv) => toText(rdv, LongDate)
  }

  /** The time of the next appointment, rendered in the French region. */
  function NextAppointmentTime(c: VaccinationCentre, toText: (string, DateStyle) -> Option<string>): (r: Option<string>)
    ensures r.Some? ==> IsAvailable(c)
    ensures IsAvailable(c) ==> r == toText(c.prochainRdv.value, ShortTime)
  {
    match c.prochainRdv
    case None => None
    case Some(rdv) => toText(rdv, ShortTime)
  }

  /** The booking link: the centre's `url` string, parsed, when it parses to a
      valid URL. `parseUrl` is `URL(string:)`, `isValid` the URL check. */
  function AppointmentUrl<U>(c: VaccinationCentre, parseUrl: string -> Option<U>, isValid: U -> bool): (r: Option<U>)
    ensures r.Some? <==> c.url.Some? && parseUrl(c.url.value).Some? && isValid(parseUrl(c.url.value).value)
    ensures r.Some? ==> r == parseUrl(c.url.value)
  {
    match c.url
    case None => None
    case Some(urlString) =>
      match parseUrl(urlString)
      case None => None
      case Some(url) => if isValid(url) then parseUrl(urlString) else None
  }

  /** The phone number from the centre's metadata, when there is one. */
  function MetadataPhoneNumber(c: VaccinationCentre): Option<string> {
    match c.metadata
    case None => None
    case Some(m) => m.phoneNumber
  }

  /** The `tel://` link for the centre's phone number, when it parses to a valid URL. */
  function PhoneUrl<U>(c: VaccinationCentre, parseUrl: string -> Option<U>, isValid: U -> bool): (r: Option<U>)
    ensures r.Some? <==>
      MetadataPhoneNumber(c).Some?
      && parseUrl("tel://" + MetadataPhoneNumber(c).value).Some?
      && isValid(parseUrl("tel://" + MetadataPhoneNumber(c).value).value)
    ensures r.Some? ==> r == parseUrl("tel://" + MetadataPhoneNumber(c).value)
  {
    match MetadataPhoneNumber(c)
    case None => None
    case Some(phoneNumber) =>
      match parseUrl("tel://" + phoneNumber)
      case None => None
      case Some(url) => if isValid(url) then Some(url) else None
  }

  /** The centre's position, present only when both coordinates are. */
  function LocationAsCLLocation(c: VaccinationCentre): (r: Option<GeoPoint>)
    ensures r.Some? <==> c.location.Some? && c.location.value.latitude.Some? && c.location.value.longitude.Some?
    ensures r.Some? ==> r.value == GeoPoint(c.location.value.latitude.value, c.location.value.longitude.value)
  {
    match c.location
    case None => None
    case Some(loc) =>
      match (loc.latitude, loc.longitude)
      case (Some(lat), Some(lon)) => Some(GeoPoint(lat, lon))
      case _ => None
  }

  /** The name shown for a centre. Without a name it is the placeholder
      `unavailableName`; with both the centre's position and the user's
      `selectedLocation` it is followed by the distance between them,
      `distanceText` standing for the kilometres printed with `%.1f`. */
  function FormattedCentreName(
    c: VaccinationCentre,
    selectedLocation: Option<GeoPoint>,
    unavailableName: string,
    distanceText: (GeoPoint, GeoPoint) -> string): (name: string)
    ensures c.nom.None? ==> name == unavailableName
    ensures c.nom.Some? && (LocationAsCLLocation(c).None? || selectedLocation.None?) ==> name == c.nom.value
    ensures c.nom.Some? && LocationAsCLLocation(c).Some? && selectedLocation.Some? ==>
      name == c.nom.value + " (" + distanceText(LocationAsCLLocation(c).value, selectedLocation.value) + " km)"
      && |c.nom.value| < |name| && name[..|c.nom.value|] == c.nom.value
  {
    match c.nom
    case None => unavailableName
    case Some(nom) =>
      match (LocationAsCLLocation(c), selectedLocation)
      case (Some(location), Some(selected)) =>
        nom + " " + "(" + distanceText(location, selected) + " km)"
      case _ => nom
  }

  /** The metadata phone number in national format, when the phone library
      can parse it with the French region rules. */
  function FormattedPhoneNumber<P>(c: VaccinationCentre, parse: string -> Option<P>, format: P -> string): (r: Option<string>)
    ensures r.Some? <==> MetadataPhoneNumber(c).Some? && parse(MetadataPhoneNumber(c).value).Some?
    ensures r.Some? ==> r.value == format(parse(MetadataPhoneNumber(c).value).value)
  {
    match MetadataPhoneNumber(c)
    case None => None
    case Some(raw) =>
      match parse(raw)
      case None => None
      case Some(number) => Some(format(number))
  }
}
