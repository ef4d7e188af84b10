/** The holiday-country picker (holidaySelector.jsx): one checkbox per entry
    of the country table, checked when its code is selected. */
module HolidaySelector {
  import opened Checkboxes

  /** A country table entry as `Object.entries(countries)` lists it: the
      code and the display name. */
  datatype Country = Country(code: string, name: string)

  /** A rendered box: the country code it stands for and whether it is checked. */
  datatype Box = Box(code: string, checked: bool)

  /** Lines 13-18: one box per entry, in table order. */
  function Boxes(countries: seq<Country>, selectedCountries: seq<string>): (r: seq<Box>)
    ensures |r| == |countries|
    ensures forall i :: 0 <= i < |countries| ==>
              r[i].code == countries[i].code && (r[i].checked <==> countries[i].code in selectedCountries)
  {
    if countries == [] then []
    else [Box(countries[0].code, countries[0].code in selectedCountries)] + Boxes(countries[1..], selectedCountries)
  }

  /** Lines 19-25: the new selection a click hands to `setSelectedCountries`. */
  function OnCountryChange(selectedCountries: seq<string>, code: string, checked: bool): seq<string>
  {
    Toggle(selectedCountries, code, checked)
  }

  /** A click on the box of `code` turns exactly the boxes with that code to
      the clicked state; every other box keeps its state. */
  lemma ClickChangesOwnBoxes(countries: seq<Country>, selectedCountries: seq<string>, code: string, checked: bool)
    ensures var before, after := Boxes(countries, selectedCountries),
                                 Boxes(countries, OnCountryChange(selectedCountries, code, checked));
            forall i :: 0 <= i < |countries| ==>
              after[i].checked == (if countries[i].code == code then checked else before[i].checked)
  {
    forall i | 0 <= i < |countries| {
      ToggleShows(selectedCountries, code, checked, countries[i].code);
    }
  }
}
