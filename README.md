# ViteMaDose (iOS) — model of the centre record and two view models

ViteMaDose lists COVID-19 vaccination centres in France. This project models
the logic of three files of the iOS app:

- **The vaccination centre record** (`Centre`, `vaccination_centre.dfy`): a
  `VaccinationCentre` whose every field may be missing, the `VaccinationCentres`
  response holding the available and unavailable partitions, and the derived
  display values — availability, next appointment day and time, booking link,
  `tel://` link, map position, name with distance, national phone format. All
  of them are pure functions. The libraries the app calls for these values
  (URL parsing and validation, date formatting in the French region, phone
  number parsing and formatting, the distance between two points printed with
  one decimal, the localised placeholder for a missing name) are parameters of
  the functions: a function-typed parameter stands for each library call, and
  the URL and phone-number types are type parameters.
- **The credits screen** (`Credits`, `credit_view_model.dfy`): the rewriting
  of a contributor's role for display and for VoiceOver, as chains of literal
  replace-all steps (`Strings.ReplaceAll`, `strings.dfy`); the link chosen for
  a contributor; the deduplication by pseudo and ordering by shown name of a
  fetched list; and the `CreditViewModel` class, whose `Load` starts a fetch
  unless one is under way and whose `Complete` delivers the fetch's result.
  The fetch callback is this second, explicit step. Calls on the delegate are
  recorded in the `events` field.
- **The county picker** (`CountySelection`, `county_selection_view_model.dfy`):
  the `CountySelectionViewModel` class over a county list fixed at
  construction (a `const`), bounds-checked row lookup, and the selection of a
  county, which stores its code in `lastSelectedCountyCode` and records the
  dismissal sent to the delegate.

`support.dfy` holds `Option` and `SafeGet`, the bounds-checked subscript
(`[safe:]`) both view models use.

## Model

| member | source | states |
|---|---|---|
| `Centre.IsAvailable` | ViteMaDose/Models/VaccinationCentre.swift:68-70 | a centre is available exactly when it has a next appointment date (`prochainRdv`) |
| `Centre.NextAppointmentDay` | ViteMaDose/Models/VaccinationCentre.swift:72-74 | a day is shown only for an available centre, and then it is the long-date rendering of `prochainRdv` |
| `Centre.NextAppointmentTime` | ViteMaDose/Models/VaccinationCentre.swift:76-78 | a time is shown only for an available centre, and then it is the short-time rendering of `prochainRdv` |
| `Centre.AppointmentUrl` | ViteMaDose/Models/VaccinationCentre.swift:80-89 | a booking link exists exactly when `url` is present, parses and is valid, and it is the URL parsed from that same string |
| `Centre.PhoneUrl` | ViteMaDose/Models/VaccinationCentre.swift:91-100 | a phone link exists exactly when the metadata phone number is present and `"tel://" + number` parses to a valid URL, and it is that URL |
| `Centre.LocationAsCLLocation` | ViteMaDose/Models/VaccinationCentre.swift:102-113 | a position exists exactly when both latitude and longitude are present, and it carries exactly those two values |
| `Centre.FormattedCentreName` | ViteMaDose/Models/VaccinationCentre.swift:115-131 | no name gives the placeholder whatever the locations; a missing centre or selected location gives the name unchanged; with both, the name followed by `" (" + distance + " km)"`, so the name is a strict prefix |
| `Centre.FormattedPhoneNumber` | ViteMaDose/Models/VaccinationCentre.swift:133-142 | a formatted number exists exactly when the metadata number is present and parses, and it is the national format of the parsed number |
| `Support.SafeGet` | ViteMaDose/ViewModels/CountySelection/CountySelectionViewModel.swift:44 | the `[safe:]` subscript yields an element exactly for an index within bounds, and then the element at that index |
| `Strings.ReplaceAll` | ViteMaDose/ViewModels/Credit/CreditViewModel.swift:87-103 | `replacingOccurrences(of:with:)`: a left-to-right scan that replaces each non-overlapping occurrence of the pattern and resumes after the inserted text |
| `Strings.ReplaceAllFirst` | ViteMaDose/ViewModels/Credit/CreditViewModel.swift:87-103 | the first occurrence of the pattern, wherever it is, is replaced, the text before it is kept, and the scan resumes right after it |
| `Strings.ReplaceAllAvoids` | ViteMaDose/ViewModels/Credit/CreditViewModel.swift:87-103 | after replacing every `p`, a word `q` that the replacement can neither contain nor complete is absent, when it was absent before or is `p` itself |
| `Strings.ReplaceAllAbsent` | ViteMaDose/ViewModels/Credit/CreditViewModel.swift:87-103 | replacing a pattern that does not occur leaves the string unchanged |
| `Strings.ReplaceAllSameLength` | ViteMaDose/ViewModels/Credit/CreditViewModel.swift:87-91 | a replacement as long as its pattern keeps the string's length |
| `Strings.ReplaceAllLeading` | ViteMaDose/ViewModels/Credit/CreditViewModel.swift:96-103 | a leading occurrence is replaced once and the scan resumes after it, never inside the inserted text |
| `Strings.OccurrenceCharacter` | ViteMaDose/ViewModels/Credit/CreditViewModel.swift:87-103 | a pattern that occurs in a string has all its characters in that string |
| `Strings.Less` | ViteMaDose/ViewModels/Credit/CreditViewModel.swift:127 | the `<` on shown names used for sorting: lexicographic order on characters, a proper prefix first |
| `Strings.LessIrreflexive` | ViteMaDose/ViewModels/Credit/CreditViewModel.swift:127 | no name sorts before itself |
| `Strings.LessTransitive` | ViteMaDose/ViewModels/Credit/CreditViewModel.swift:127 | the name order used for sorting is transitive |
| `Strings.LessConnected` | ViteMaDose/ViewModels/Credit/CreditViewModel.swift:127 | of two different names one sorts before the other |
| `Credits.Display` | ViteMaDose/ViewModels/Credit/CreditViewModel.swift:87-91 | the displayed role has the length of the role, and no lower-case `ios` or `android` is left in it |
| `Credits.DisplayUnchanged` | ViteMaDose/ViewModels/Credit/CreditViewModel.swift:87-91 | a role without `ios` and `android` is displayed unchanged |
| `Credits.Vocalize` | ViteMaDose/ViewModels/Credit/CreditViewModel.swift:96-103 | the role read by VoiceOver, after the five substitutions in order, has no lower-case `ios` or `android` left |
| `Credits.PlainRoleUnchanged` | ViteMaDose/ViewModels/Credit/CreditViewModel.swift:87-103 | a role with none of `ios`, `android`, `scrap`, `infra`, `web` is displayed and vocalised unchanged |
| `Credits.VocalizeInfra` | ViteMaDose/ViewModels/Credit/CreditViewModel.swift:96-103 | the five substitutions run once each in order: `infra` is read as `infrastructure`, expanded exactly once |
| `Credits.FirstLinkUrl` | ViteMaDose/ViewModels/Credit/CreditViewModel.swift:68 | `links?.first?.url` is present exactly when there is a first link with a URL, and is that URL |
| `Credits.CreditCell` | ViteMaDose/ViewModels/Credit/CreditViewModel.swift:65-79 | a row shows the contributor's name and photo, the link chosen by `CreditLinkUrl`, and the role as `Display` and `Vocalize` render it: a displayed role of the role's length, both renderings free of lower-case `ios` and `android` |
| `Credits.CreditLinkUrl` | ViteMaDose/ViewModels/Credit/CreditViewModel.swift:65-72 | the link is `site_web` when it parses, else the first link's URL when it parses, else nothing |
| `Credits.UniqueByPseudo` | ViteMaDose/ViewModels/Credit/CreditViewModel.swift:126 | the result has no two entries with the same pseudo, holds only input entries, and keeps every input pseudo |
| `Credits.InsertByName` | ViteMaDose/ViewModels/Credit/CreditViewModel.swift:127 | inserting into a name-sorted list keeps it sorted, adds exactly that entry, and keeps pseudos distinct when the new one is new |
| `Credits.SortByName` | ViteMaDose/ViewModels/Credit/CreditViewModel.swift:127 | the result is ordered non-decreasingly by shown name and is a permutation of the input |
| `Credits.DedupSort` | ViteMaDose/ViewModels/Credit/CreditViewModel.swift:124-128 | the kept list has distinct pseudos, is ordered by shown name, holds only fetched entries and represents every fetched pseudo |
| `Credits.CreditViewModel.constructor` | ViteMaDose/ViewModels/Credit/CreditViewModel.swift:49-57 | the view model starts with the given credits, one section, not loading, no delegate call |
| `Credits.CreditViewModel.NumberOfRows` | ViteMaDose/ViewModels/Credit/CreditViewModel.swift:43-45 | the row count is the number of credits for any section |
| `Credits.CreditViewModel.CellViewModel` | ViteMaDose/ViewModels/Credit/CreditViewModel.swift:59-80 | a row exists exactly for an index within the credits, and shows that credit's name, rewritten role, link and photo |
| `Credits.CreditViewModel.SetIsLoading` | ViteMaDose/ViewModels/Credit/CreditViewModel.swift:34-39 | every assignment of `isLoading` reports the new state and whether the current list is empty |
| `Credits.CreditViewModel.Load` | ViteMaDose/ViewModels/Credit/CreditViewModel.swift:107-110 | while a fetch is under way nothing changes; otherwise loading starts and is reported, the credits untouched |
| `Credits.CreditViewModel.Complete` | ViteMaDose/ViewModels/Credit/CreditViewModel.swift:111-121 | loading stops first and is reported against the previous list; a fetched list (missing contributors read as empty) replaces the credits deduplicated and sorted and reloads the table; an error leaves the credits unchanged and is presented |
| `Credits.CreditViewModel.HandleLoad` | ViteMaDose/ViewModels/Credit/CreditViewModel.swift:124-129 | the credits become the deduplicated, sorted fetched list and the table reloads with it |
| `Credits.CreditViewModel.HandleError` | ViteMaDose/ViewModels/Credit/CreditViewModel.swift:131-133 | only the error presentation happens |
| `CountySelection.CountySelectionViewModel.constructor` | ViteMaDose/ViewModels/CountySelection/CountySelectionViewModel.swift:33-41 | the picker holds exactly the given counties, a list it never changes afterwards |
| `CountySelection.CountySelectionViewModel.NumberOfRows` | ViteMaDose/ViewModels/CountySelection/CountySelectionViewModel.swift:27-29 | the row count is the number of counties given at construction |
| `CountySelection.CountySelectionViewModel.CellViewModel` | ViteMaDose/ViewModels/CountySelection/CountySelectionViewModel.swift:43-59 | a row exists exactly for an index within range whose county has both name and code, and shows exactly that name and code |
| `CountySelection.CountySelectionViewModel.DidSelectCell` | ViteMaDose/ViewModels/CountySelection/CountySelectionViewModel.swift:61-69 | an out-of-range row changes nothing and calls no delegate; a valid row stores that county's code and dismisses with that same county, so the stored code is the one its row shows |

## Left out

- The UIKit views (home screen, its title cell): presentation only.
- The localisation table: the placeholder for a missing centre name is the parameter `unavailableName` of `FormattedCentreName`.
- Foundation, MapKit, SwiftDate and PhoneNumberKit behaviour (`URL(string:)`, `isValid`, `toString(with:region:)`, `CLLocation.distance`, `String(format: "%.1f")`, `parse`, `format`): library code outside this model, passed in as functions; coordinates are reals and no geodesy or rounding is modelled.
- `String.space` is taken to be a single space, and the French region (`AppConstant.franceRegion`) is part of the date-formatting function passed to `NextAppointmentDay` and `NextAppointmentTime`: neither constant is part of this model.
- The asynchronous `fetchCredits` call, its `[weak self]` capture and the thread the callback runs on: the model has the state change of an explicit completion step, `Complete`, and no request object.
- The delegate is weak and optional: `events` records the calls made when a delegate is attached; with none, they have no effect. The delegate calls made inside both initialisers are left out, since no delegate can be attached at that point.
- The user defaults store: `lastSelectedCountyCode` is a plain field, initialised from a constructor argument.
- JSON decoding (`Codable`, `CodingKeys`), `Equatable` (datatype equality stands for it) and `typealias LocationVaccinationCentres`; `VaccinationCentres` has no operations in this code and is a plain record.
- `assertionFailure` on an out-of-range row: it stops debug builds only; the model follows release builds, which return nothing.
- `Strings.Less`: Swift compares strings by Unicode canonical ordering; the model compares characters lexicographically.
- `Strings.ReplaceAll`: Foundation matches by Unicode canonical equivalence; the model matches characters literally.
- `Credits.UniqueByPseudo`: the helper `unique(by:)` is not part of this model, so its contract does not say which of several entries with one pseudo is kept; its definition keeps the first, one allowed outcome, and `HandleLoad` and `Complete` inherit that choice.
- `Credits.SortByName`: `sorted(by:)` does not promise stability, so its contract does not order entries with equal names; its definition is a stable insertion sort, one allowed outcome, and `HandleLoad` and `Complete` inherit that choice.
- `Credits.Vocalize`: the expansions of `scrap`, `infra` and `web` contain or can complete those words again and are not rescanned, so only the absence of `ios` and `android` is promised afterwards.
- The `Credit` and `County` types are not part of this model: they are records of the fields the view models read, with `pseudo` taken to be a string.
