/** The county picker: a fixed list of counties, one row per county, and the
    choice of a county, which is remembered and handed to the delegate. */
module CountySelection {
  import opened Support

  /** A county (département) as the API lists it; both parts may be missing. */
  datatype County = County(codeDepartement: Option<string>, nomDepartement: Option<string>)

  /** What one row of the picker shows. */
  datatype CountyCellViewData = CountyCellViewData(countyName: string, countyCode: string)

  /** A call the view model makes on its delegate. */
  datatype CountyEvent = DismissViewController(county: County)

  /** The picker's state. The county list is fixed when the view model is
      made; `lastSelectedCountyCode` stands for the code the app keeps in the
      user defaults, and `events` records the delegate calls. */
  class CountySelectionViewModel {
    const allCounties: seq<County>
    var lastSelectedCountyCode: Option<string>
    var events: seq<CountyEvent>

    /** A picker over `counties`, with `storedCode` the code already remembered. */
    constructor(counties: seq<County>, storedCode: Option<string>)
      ensures allCounties == counties
      ensures lastSelectedCountyCode == storedCode && events == []
    {
      allCounties := counties;
      lastSelectedCountyCode := storedCode;
      events := [];
    }

    /** One row per county given at construction. */
    function NumberOfRows(): (n: nat)
      ensures n == |allCounties|
    {
      |allCounties|
    }

    /** The row at `row`: the county's name and code, or nothing when `row`
        is out of range or the county lacks its name or its code. */
    function CellViewModel(row: int): (r: Option<CountyCellViewData>)
      ensures r.Some? <==>
        0 <= row < NumberOfRows()
        && allCounties[row].nomDepartement.Some? && allCounties[row].codeDepartement.Some?
      ensures r.Some? ==>
        r.value == CountyCellViewData(allCounties[row].nomDepartement.value, allCounties[row].codeDepartement.value)
    {
      match SafeGet(allCounties, row)
      case None => None
      case Some(county) =>
        match (county.nomDepartement, county.codeDepartement)
        case (Some(countyName), Some(countyCode)) => Some(CountyCellViewData(countyName, countyCode))
        case _ => None
    }

    /** Choosing a row remembers that county's code and dismisses the picker
        with that county; a row out of range does nothing. */
    method DidSelectCell(row: int)
      modifies this
      ensures !(0 <= row < |allCounties|) ==> unchanged(this)
      ensures 0 <= row < |allCounties| ==>
        lastSelectedCountyCode == allCounties[row].codeDepartement
        && events == old(events) + [DismissViewController(allCounties[row])]
      ensures CellViewModel(row).Some? ==> lastSelectedCountyCode == Some(CellViewModel(row).value.countyCode)
    {
      var county := SafeGet(allCounties, row);
      if county.None? {
        return;
      }
      lastSelectedCountyCode := county.value.codeDepartement;
      events := events + [DismissViewController(county.value)];
    }
  }
}
