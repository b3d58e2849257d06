/** The credits screen: the list of contributors, its loading state, and the
    rewriting of each contributor's role for display and for VoiceOver. */
module Credits {
  import opened Support
  import opened Strings

  /** One external link of a contributor. */
  datatype CreditLink = CreditLink(url: Option<string>)

  /** A contributor, with the fields the screen uses. */
  datatype Credit = Credit(
    pseudo: string,
    shownName: string,
    shownRole: string,
    siteWeb: Option<string>,
    links: Option<seq<CreditLink>>,
    photo: Option<string>)

  /** The error the credits fetch reports. */
  datatype LoadError = LoadError(description: string)

  /** How the credits fetch completes: the payload's optional contributor list, or an error. */
  datatype FetchResult = Fetched(contributors: Option<seq<Credit>>) | FetchFailed(error: LoadError)

  /** A text together with the text VoiceOver reads for it. */
  datatype AccessibilityString = AccessibilityString(rawValue: string, vocalizedValue: string)

  /** What one row of the credits table shows. */
  datatype CreditCellViewData<U> = CreditCellViewData(
    creditName: string,
    creditRole: AccessibilityString,
    creditLink: Option<U>,
    creditImage: Option<string>)

  /** A call the view model makes on its delegate. */
  datatype CreditEvent =
    | ReloadTableView(credits: seq<Credit>)
    | UpdateLoadingState(isLoading: bool, isEmpty: bool)
    | PresentLoadError(error: LoadError)

  // ---------------------------------------------------------------------------
  // Role rewriting

  /** The role as displayed: every `ios` becomes `iOS`, then every `android`
      becomes `Android`. Each replacement has the length of its pattern, so
      the length is kept, and neither lower-case keyword is left. */
  function Display(role: string): (r: string)
    ensures |r| == |role|
    ensures !Contains(r, "ios") && !Contains(r, "android")
  {
    var step1 := ReplaceAll(role, "ios", "iOS");
    DisplayProperties(role);
    ReplaceAll(step1, "android", "Android")
  }

  lemma DisplayProperties(role: string)
    ensures var step1 := ReplaceAll(role, "ios", "iOS");
      var r := ReplaceAll(step1, "android", "Android");
      |r| == |role| && !Contains(r, "ios") && !Contains(r, "android")
  {
    var step1 := ReplaceAll(role, "ios", "iOS");
    ReplaceAllSameLength(role, "ios", "iOS");
    ReplaceAllSameLength(step1, "android", "Android");
    ReplaceAllAvoids(role, "ios", "iOS", "ios");
    ReplaceAllAvoids(step1, "android", "Android", "ios");
    ReplaceAllAvoids(step1, "android", "Android", "android");
  }

  /** A role without `ios` and `android` is displayed unchanged. */
  lemma DisplayUnchanged(role: string)
    requires !Contains(role, "ios") && !Contains(role, "android")
    ensures Display(role) == role
  {
    var step1 := ReplaceAll(role, "ios", "iOS");
    ReplaceAllAbsent(role, "ios", "iOS");
    assert step1 == role;
    ReplaceAllAbsent(role, "android", "Android");
    assert ReplaceAll(step1, "android", "Android") == role;
    assert Display(role) == ReplaceAll(step1, "android", "Android");
  }

  /** The role as VoiceOver reads it: five substitutions, each applied once to
      the output of the previous one, in this order. No lower-case `ios` or
      `android` is left; the expansions of `scrap`, `infra` and `web` may
      contain or complete those words again, and they are not rescanned. */
  function Vocalize(role: string): (r: string)
    ensures !Contains(r, "ios") && !Contains(r, "android")
  {
    VocalizeProperties(role);
    var step1 := ReplaceAll(role, "ios", "application iOS");
    var step2 := ReplaceAll(step1, "android", "application Androïd");
    var step3 := ReplaceAll(step2, "scrap", "analyse et traitement des données");
    var step4 := ReplaceAll(step3, "infra", "infrastructure");
    ReplaceAll(step4, "web", "application web")
  }

  lemma IosExpansionAvoidsIos()
    ensures KeepsOut("application iOS", "ios")
  {
    ExpansionAvoids("application iOS", "ios");
  }

  lemma VocalizeProperties(role: string)
    ensures var step1 := ReplaceAll(role, "ios", "application iOS");
      var step2 := ReplaceAll(step1, "android", "application Androïd");
      var step3 := ReplaceAll(step2, "scrap", "analyse et traitement des données");
      var step4 := ReplaceAll(step3, "infra", "infrastructure");
      var r := ReplaceAll(step4, "web", "application web");
      !Contains(r, "ios") && !Contains(r, "android")
  {
    var step1 := ReplaceAll(role, "ios", "application iOS");
    var step2 := ReplaceAll(step1, "android", "application Androïd");
    var step3 := ReplaceAll(step2, "scrap", "analyse et traitement des données");
    var step4 := ReplaceAll(step3, "infra", "infrastructure");
    IosExpansionAvoidsIos();
    ReplaceAllAvoids(role, "ios", "application iOS", "ios");
    AndroidExpansionAvoidsKeywords();
    ReplaceAllAvoids(step1, "android", "application Androïd", "ios");
    ReplaceAllAvoids(step1, "android", "application Androïd", "android");
    ScrapExpansionAvoidsKeywords();
    KeywordsStayOut(step2, "scrap", "analyse et traitement des données");
    InfraExpansionAvoidsKeywords();
    KeywordsStayOut(step3, "infra", "infrastructure");
    WebExpansionAvoidsKeywords();
    KeywordsStayOut(step4, "web", "application web");
  }

  /** The expansion `rep` can neither hold `q` nor complete one with the text after it. */
  predicate KeepsOut(rep: string, q: string)
  {
    CannotStartIn(rep, q) && CannotRunInto(rep, q)
  }

  /** A replacement whose expansion keeps both keywords out, applied to a text
      without them, yields a text without them. */
  lemma KeywordsStayOut(s: string, p: string, rep: string)
    requires |p| > 0
    requires KeepsOut(rep, "ios") && KeepsOut(rep, "android")
    requires !Contains(s, "ios") && !Contains(s, "android")
    ensures !Contains(ReplaceAll(s, p, rep), "ios") && !Contains(ReplaceAll(s, p, rep), "android")
  {
    ReplaceAllAvoids(s, p, rep, "ios");
    ReplaceAllAvoids(s, p, rep, "android");
  }

  /** `rep` holds no `q` and ends in no proper prefix of `q`: wherever a
      character of `rep` matches the start of `q`, a later one breaks the match. */
  lemma {:induction false} ExpansionAvoids(rep: string, q: string)
    requires |q| >= 3
    requires forall k :: 0 <= k < |rep| && rep[k] == q[0] ==>
      k + 1 < |rep| && (rep[k + 1] != q[1] || (k + 2 < |rep| && rep[k + 2] != q[2]))
    ensures CannotStartIn(rep, q)
  {
    forall k | 0 <= k < |rep|
      ensures Diverge(rep[k..], q)
    {
      var u := rep[k..];
      if rep[k] == q[0] {
        assert u[1..] == rep[k + 1..];
        if rep[k + 1] == q[1] {
          assert k + 2 < |rep| && rep[k + 2] != q[2];
          assert u[1..][1..] == rep[k + 2..];
          assert u[1..][1..][0] == rep[k + 2] && q[1..][1..][0] == q[2];
          assert Diverge(u[1..][1..], q[1..][1..]);
        }
      }
    }
  }

  lemma AndroidExpansionAvoidsKeywords()
    ensures KeepsOut("application Androïd", "ios") && KeepsOut("application Androïd", "android")
  {
    ExpansionAvoids("application Androïd", "ios");
    ExpansionAvoids("application Androïd", "android");
  }

  lemma ScrapExpansionAvoidsKeywords()
    ensures KeepsOut("analyse et traitement des données", "ios")
    ensures KeepsOut("analyse et traitement des données", "android")
  {
    ExpansionAvoids("analyse et traitement des données", "ios");
    ExpansionAvoids("analyse et traitement des données", "android");
  }

  lemma InfraExpansionAvoidsKeywords()
    ensures KeepsOut("infrastructure", "ios") && KeepsOut("infrastructure", "android")
  {
    ExpansionAvoids("infrastructure", "ios");
    ExpansionAvoids("infrastructure", "android");
    assert Diverge("infrastructure"[1..], "android"[5..]);
  }

  lemma WebExpansionAvoidsKeywords()
    ensures KeepsOut("application web", "ios") && KeepsOut("application web", "android")
  {
    ExpansionAvoids("application web", "ios");
    ExpansionAvoids("application web", "android");
  }

  /** The roles none of the five keywords occur in. */
  predicate PlainRole(role: string) {
    !Contains(role, "ios") && !Contains(role, "android") && !Contains(role, "scrap")
    && !Contains(role, "infra") && !Contains(role, "web")
  }

  /** A role with none of the keywords is shown and read out unchanged. */
  lemma PlainRoleUnchanged(role: string)
    requires PlainRole(role)
    ensures Display(role) == role
    ensures Vocalize(role) == role
  {
    DisplayUnchanged(role);
    ReplaceAllAbsent(role, "ios", "application iOS");
    ReplaceAllAbsent(role, "android", "application Androïd");
    ReplaceAllAbsent(role, "scrap", "analyse et traitement des données");
    ReplaceAllAbsent(role, "infra", "infrastructure");
    ReplaceAllAbsent(role, "web", "application web");
  }

  /** The role "infra" is read out as "infrastructure", expanded once: the
      inserted "infra" is not rewritten again. */
  lemma VocalizeInfra()
    ensures Vocalize("infra") == "infrastructure"
  {
    OccurrenceCharacter("infra", "ios", 1);
    OccurrenceCharacter("infra", "android", 2);
    OccurrenceCharacter("infra", "scrap", 0);
    ReplaceAllAbsent("infra", "ios", "application iOS");
    ReplaceAllAbsent("infra", "android", "application Androïd");
    ReplaceAllAbsent("infra", "scrap", "analyse et traitement des données");
    ReplaceAllLeading("infra", "", "infrastructure");
    assert "infra" + "" == "infra";
    assert ReplaceAll("infra", "infra", "infrastructure") == "infrastructure";
    OccurrenceCharacter("infrastructure", "web", 0);
    ReplaceAllAbsent("infrastructure", "web", "application web");
  }

  // ---------------------------------------------------------------------------
  // The link shown for a contributor

  /** The contributor's link: `site_web` when it parses as a URL, else the URL
      of the first entry of `links`, else nothing. A missing string is parsed
      as the empty string, as the app does. */
  function CreditLinkUrl<U>(credit: Credit, parseUrl: string -> Option<U>): (r: Option<U>)
    ensures parseUrl(credit.siteWeb.GetOr("")).Some? ==> r == parseUrl(credit.siteWeb.GetOr(""))
    ensures parseUrl(credit.siteWeb.GetOr("")).None? ==> r == parseUrl(FirstLinkUrl(credit).GetOr(""))
  {
    var fromSite := parseUrl(credit.siteWeb.GetOr(""));
    if fromSite.Some? then fromSite
    else
      var fromLinks := parseUrl(FirstLinkUrl(credit).GetOr(""));
      if fromLinks.Some? then fromLinks else None
  }

  /** `links?.first?.url`: present exactly when there is a first link and it
      carries a URL, and then it is that URL. */
  function FirstLinkUrl(credit: Credit): (r: Option<string>)
    ensures r.Some? <==> credit.links.Some? && |credit.links.value| > 0 && credit.links.value[0].url.Some?
    ensures r.Some? ==> r == credit.links.value[0].url
  {
    match credit.links
    case None => None
    case Some(links) => if |links| == 0 then None else links[0].url
  }

  /** The row shown for one contributor: its name and photo as given, its role
      rewritten for display (same length) and for VoiceOver, neither of them
      with a lower-case `ios` or `android` left, and its chosen link. */
  function CreditCell<U>(credit: Credit, parseUrl: string -> Option<U>): (r: CreditCellViewData<U>)
    ensures r.creditName == credit.shownName && r.creditImage == credit.photo
    ensures |r.creditRole.rawValue| == |credit.shownRole|
    ensures !Contains(r.creditRole.rawValue, "ios") && !Contains(r.creditRole.rawValue, "android")
    ensures !Contains(r.creditRole.vocalizedValue, "ios") && !Contains(r.creditRole.vocalizedValue, "android")
    ensures r.creditRole == AccessibilityString(Display(credit.shownRole), Vocalize(credit.shownRole))
    ensures r.creditLink == CreditLinkUrl(credit, parseUrl)
  {
    CreditCellViewData(
      credit.shownName,
      AccessibilityString(Display(credit.shownRole), Vocalize(credit.shownRole)),
      CreditLinkUrl(credit, parseUrl),
      credit.photo)
  }

  // ---------------------------------------------------------------------------
  // Deduplication by pseudo and ordering by name

  /** The pseudos of a list of contributors. */
  function Pseudos(s: seq<Credit>): set<string> {
    set c | c in s :: c.pseudo
  }

  /** No two entries share a pseudo. */
  predicate DistinctPseudos(s: seq<Credit>) {
    forall i, j :: 0 <= i < j < |s| ==> s[i].pseudo != s[j].pseudo
  }

  /** Ordered by shown name, never an entry before one whose name is smaller. */
  predicate SortedByName(s: seq<Credit>) {
    forall i, j :: 0 <= i < j < |s| ==> !Less(s[j].shownName, s[i].shownName)
  }

  lemma PseudosAppend(s: seq<Credit>, x: Credit)
    ensures Pseudos(s + [x]) == Pseudos(s) + {x.pseudo}
  {
  }

  lemma PseudosPrepend(x: Credit, s: seq<Credit>)
    ensures Pseudos([x] + s) == {x.pseudo} + Pseudos(s)
  {
  }

  /** `unique(by: \.pseudo)`: one entry per pseudo, all taken from the input.
      This definition keeps the first entry of each pseudo; the contract does
      not say which one is kept. */
  function UniqueByPseudo(s: seq<Credit>): (r: seq<Credit>)
    ensures DistinctPseudos(r)
    ensures forall c :: c in r ==> c in s
    ensures Pseudos(r) == Pseudos(s)
    decreases |s|
  {
    if s == [] then []
    else
      var init, last := s[..|s| - 1], s[|s| - 1];
      assert s == init + [last];
      PseudosAppend(init, last);
      var kept := UniqueByPseudo(init);
      if last.pseudo in Pseudos(kept) then kept
      else
        assert forall i :: 0 <= i < |kept| ==> kept[i] in kept;
        PseudosAppend(kept, last);
        kept + [last]
  }

  /** `x` placed into a list sorted by name, before the first entry not smaller
      than it; a new pseudo keeps the pseudos distinct. */
  function InsertByName(x: Credit, s: seq<Credit>): (r: seq<Credit>)
    requires SortedByName(s)
    ensures SortedByName(r)
    ensures multiset(r) == multiset(s) + multiset{x}
    ensures Pseudos(r) == Pseudos(s) + {x.pseudo}
    ensures DistinctPseudos(s) && x.pseudo !in Pseudos(s) ==> DistinctPseudos(r)
  {
    if s == [] then [x]
    else if !Less(s[0].shownName, x.shownName) then
      PrependNotAfterHead(x, s);
      PseudosPrepend(x, s);
      DistinctPrepend(x, s);
      [x] + s
    else
      var rest := InsertByName(x, s[1..]);
      InsertIntoTail(x, s, rest);
      [s[0]] + rest
  }

  /** When `x` goes after the head of `s`, inserting it into the tail and
      putting the head back in front keeps every property of the insertion. */
  lemma InsertIntoTail(x: Credit, s: seq<Credit>, rest: seq<Credit>)
    requires s != [] && SortedByName(s) && Less(s[0].shownName, x.shownName)
    requires SortedByName(rest) && multiset(rest) == multiset(s[1..]) + multiset{x}
    requires Pseudos(rest) == Pseudos(s[1..]) + {x.pseudo}
    requires DistinctPseudos(s[1..]) && x.pseudo !in Pseudos(s[1..]) ==> DistinctPseudos(rest)
    ensures SortedByName([s[0]] + rest)
    ensures multiset([s[0]] + rest) == multiset(s) + multiset{x}
    ensures Pseudos([s[0]] + rest) == Pseudos(s) + {x.pseudo}
    ensures DistinctPseudos(s) && x.pseudo !in Pseudos(s) ==> DistinctPseudos([s[0]] + rest)
  {
    assert s == [s[0]] + s[1..];
    PseudosPrepend(s[0], s[1..]);
    PrependBeforeInsert(s[0], x, s[1..], rest);
    PseudosPrepend(s[0], rest);
    DistinctPrepend(s[0], rest);
    HeadPseudoNotInTail(s);
  }

  /** In a list with distinct pseudos, the head's pseudo is not among the tail's. */
  lemma HeadPseudoNotInTail(s: seq<Credit>)
    requires s != []
    ensures DistinctPseudos(s) ==> s[0].pseudo !in Pseudos(s[1..])
  {
  }

  /** An entry not after the head of a sorted list may be put in front of it. */
  lemma PrependNotAfterHead(x: Credit, s: seq<Credit>)
    requires SortedByName(s)
    requires s != [] ==> !Less(s[0].shownName, x.shownName)
    ensures SortedByName([x] + s)
  {
    forall j | 0 < j < |s| ensures !Less(s[j].shownName, x.shownName) {
      NotLessTransitive(x.shownName, s[0].shownName, s[j].shownName);
    }
  }

  /** The head `y` of a sorted list, smaller than `x`, stays in front once `x`
      is inserted into the tail `t`. */
  lemma PrependBeforeInsert(y: Credit, x: Credit, t: seq<Credit>, rest: seq<Credit>)
    requires SortedByName([y] + t) && SortedByName(rest)
    requires Less(y.shownName, x.shownName)
    requires multiset(rest) == multiset(t) + multiset{x}
    ensures SortedByName([y] + rest)
  {
    LessAsymmetric(y.shownName, x.shownName);
    forall k | 0 <= k < |rest| ensures !Less(rest[k].shownName, y.shownName) {
      assert rest[k] in multiset(rest);
      if rest[k] != x {
        assert rest[k] in multiset(t);
        var m :| 0 <= m < |t| && t[m] == rest[k];
        assert ([y] + t)[0] == y && ([y] + t)[m + 1] == t[m];
      }
    }
  }

  /** An entry with a new pseudo keeps a list's pseudos distinct. */
  lemma DistinctPrepend(x: Credit, s: seq<Credit>)
    ensures DistinctPseudos(s) && x.pseudo !in Pseudos(s) ==> DistinctPseudos([x] + s)
  {
  }

  /** `sorted(by: { $0.shownName < $1.shownName })`: the same entries, ordered
      by name; distinct pseudos stay distinct. */
  function SortByName(s: seq<Credit>): (r: seq<Credit>)
    ensures SortedByName(r)
    ensures multiset(r) == multiset(s)
    ensures Pseudos(r) == Pseudos(s)
    ensures DistinctPseudos(s) ==> DistinctPseudos(r)
  {
    if s == [] then []
    else
      assert s == [s[0]] + s[1..];
      PseudosPrepend(s[0], s[1..]);
      HeadPseudoNotInTail(s);
      InsertByName(s[0], SortByName(s[1..]))
  }

  /** What the credits screen keeps from a fetched list: one entry per pseudo,
      ordered by name, every entry from the fetched list and every fetched
      pseudo represented. */
  function DedupSort(fetched: seq<Credit>): (r: seq<Credit>)
    ensures DistinctPseudos(r)
    ensures SortedByName(r)
    ensures forall c :: c in r ==> c in fetched
    ensures Pseudos(r) == Pseudos(fetched)
  {
    var unique := UniqueByPseudo(fetched);
    var sorted := SortByName(unique);
    assert forall c :: c in sorted ==> c in multiset(unique);
    sorted
  }

  // ---------------------------------------------------------------------------
  // The view model

  /** The credits screen's state: the contributors shown, whether a fetch is
      under way, and the calls made so far on the delegate. The fetch is split
      in two steps: `Load` starts it and `Complete` delivers its result. */
  class CreditViewModel {
    var allCredits: seq<Credit>
    var isLoading: bool
    var numberOfSections: int
    var events: seq<CreditEvent>

    /** The view model starts with the given credits and no fetch under way. */
    constructor(credits: seq<Credit>)
      ensures allCredits == credits && !isLoading && numberOfSections == 1 && events == []
    {
      allCredits := credits;
      isLoading := false;
      numberOfSections := 1;
      events := [];
    }

    /** The table has one row per contributor, whatever the section. */
    function NumberOfRows(section: int): (n: nat)
      reads this
      ensures n == |allCredits|
    {
      |allCredits|
    }

    /** The row at `row`, or nothing when `row` is not a row of the table. */
    function CellViewModel<U>(row: int, parseUrl: string -> Option<U>): (r: Option<CreditCellViewData<U>>)
      reads this
      ensures r.Some? <==> 0 <= row < |allCredits|
      ensures r.Some? ==> r.value == CreditCell(allCredits[row], parseUrl)
    {
      match SafeGet(allCredits, row)
      case None => None
      case Some(credit) => Some(CreditCell(credit, parseUrl))
    }

    /** Assigning `isLoading` tells the delegate the new state and whether the
        list is empty at that moment. */
    method SetIsLoading(value: bool)
      modifies this
      ensures isLoading == value
      ensures allCredits == old(allCredits) && numberOfSections == old(numberOfSections)
      ensures events == old(events) + [UpdateLoadingState(value, |allCredits| == 0)]
    {
      isLoading := value;
      events := events + [UpdateLoadingState(isLoading, |allCredits| == 0)];
    }

    /** Starts a fetch, unless one is already under way. */
    method Load()
      modifies this
      ensures old(isLoading) ==> unchanged(this)
      ensures !old(isLoading) ==>
        isLoading && allCredits == old(allCredits) && numberOfSections == old(numberOfSections)
        && events == old(events) + [UpdateLoadingState(true, |allCredits| == 0)]
    {
      if isLoading {
        return;
      }
      SetIsLoading(true);
    }

    /** The fetch completes: loading stops (reported against the list as it was),
        then a fetched list replaces the credits, deduplicated and sorted, while
        an error leaves them as they were. */
    method Complete(result: FetchResult)
      modifies this
      ensures !isLoading && numberOfSections == old(numberOfSections)
      ensures result.Fetched? ==>
        allCredits == DedupSort(result.contributors.GetOr([]))
        && events == old(events) + [UpdateLoadingState(false, |old(allCredits)| == 0), ReloadTableView(allCredits)]
      ensures result.FetchFailed? ==>
        allCredits == old(allCredits)
        && events == old(events) + [UpdateLoadingState(false, |old(allCredits)| == 0), PresentLoadError(result.error)]
      ensures result.Fetched? ==>
        DistinctPseudos(allCredits) && SortedByName(allCredits)
        && forall c :: c in allCredits ==> c in result.contributors.GetOr([])
    {
      SetIsLoading(false);
      match result
      case Fetched(contributors) => HandleLoad(contributors.GetOr([]));
      case FetchFailed(error) => HandleError(error);
    }

    /** Keeps the fetched credits, one per pseudo and ordered by name, and reloads the table. */
    method HandleLoad(credits: seq<Credit>)
      modifies this
      ensures allCredits == DedupSort(credits)
      ensures isLoading == old(isLoading) && numberOfSections == old(numberOfSections)
      ensures events == old(events) + [ReloadTableView(allCredits)]
    {
      allCredits := DedupSort(credits);
      events := events + [ReloadTableView(allCredits)];
    }

    /** Reports the error; the credits stay as they were. */
    method HandleError(error: LoadError)
      modifies this
      ensures allCredits == old(allCredits) && isLoading == old(isLoading)
      ensures numberOfSections == old(numberOfSections)
      ensures events == old(events) + [PresentLoadError(error)]
    {
      events := events + [PresentLoadError(error)];
    }
  }
}
