/**
 * The dashboard's static reference data: the thirteen provinces and
 * territories with their table files, abbreviations, display names, map
 * coordinates and slider order; the occupation codes of the essential
 * services and engineer types; and the ten broad occupation categories.
 * Python dictionaries that are iterated become sequences of pairs in their
 * written order; dictionaries that are only looked up become maps.
 */
module Lookup {
  import opened Counts
  import opened Labels

  /** PROVINCE_FILES: province name and the file holding its table, in iteration order. */
  const ProvinceFiles: seq<(string, string)> := [
    ("Newfoundland and Labrador", "Newfoundland and Labrador.csv"),
    ("Alberta", "Alberta.csv"),
    ("British Columbia", "British Columbia.csv"),
    ("Manitoba", "Manitoba.csv"),
    ("New Brunswick", "New Brunswick.csv"),
    ("Northwest Territories", "Northwest Territories.csv"),
    ("Nova Scotia", "Nova Scotia.csv"),
    ("Nunavut", "Nunavut.csv"),
    ("Ontario", "Ontario.csv"),
    ("Prince Edward Island", "Prince Edward Island.csv"),
    ("Quebec", "Quebec.csv"),
    ("Saskatchewan", "Saskatchewan.csv"),
    ("Yukon", "Yukon.csv")
  ]

  const AbbrevToName: map<string, string> := map[
    "NL" := "Newfoundland and Labrador",
    "PE" := "Prince Edward Island",
    "NS" := "Nova Scotia",
    "NB" := "New Brunswick",
    "QC" := "Quebec",
    "ON" := "Ontario",
    "MB" := "Manitoba",
    "SK" := "Saskatchewan",
    "AB" := "Alberta",
    "BC" := "British Columbia",
    "YT" := "Yukon Territory",
    "NT" := "Northwest Territories",
    "NU" := "Nunavut"
  ]

  const ProvinceAbbrev: map<string, string> := map[
    "Alberta" := "AB",
    "British Columbia" := "BC",
    "Manitoba" := "MB",
    "New Brunswick" := "NB",
    "Newfoundland and Labrador" := "NL",
    "Nova Scotia" := "NS",
    "Northwest Territories" := "NT",
    "Nunavut" := "NU",
    "Ontario" := "ON",
    "Prince Edward Island" := "PE",
    "Quebec" := "QC",
    "Saskatchewan" := "SK",
    "Yukon" := "YT"
  ]

  /** ESSENTIAL_OCCUPATIONS: service name and the occupation codes that make it up. */
  const EssentialOccupations: seq<(string, seq<string>)> := [
    ("Nurses", ["31301", "31302"]),
    ("Police", ["42100"]),
    ("Firefighters", ["42101"])
  ]

  /** NOC_CATEGORIES: the ten broad categories, code and display name. */
  const NocCategories: seq<(nat, string)> := [
    (0, "0 Legislative/Management"),
    (1, "1 Business/Finance"),
    (2, "2 Natural/Applied Sciences"),
    (3, "3 Health"),
    (4, "4 Education/Law"),
    (5, "5 Art/Culture"),
    (6, "6 Sales/Service"),
    (7, "7 Trades/Transport"),
    (8, "8 Natural Resources"),
    (9, "9 Manufacturing")
  ]

  /** ENGINEER_OCCUPATIONS: engineer type and its single occupation code. */
  const EngineerOccupations: seq<(string, string)> := [
    ("Computer Engineers", "21311"),
    ("Mechanical Engineers", "21301"),
    ("Electrical Engineers", "21310")
  ]

  datatype Coord = Coord(lat: real, lon: real)

  const ProvinceCoords: map<string, Coord> := map[
    "AB" := Coord(53.9333, -116.5765),
    "BC" := Coord(53.7267, -127.6476),
    "MB" := Coord(53.7609, -98.8139),
    "NB" := Coord(46.5653, -66.4619),
    "NL" := Coord(48.6560, -55.7519),
    "NS" := Coord(44.6816, -63.7443),
    "NT" := Coord(64.8255, -124.8457),
    "NU" := Coord(70.2998, -83.1076),
    "ON" := Coord(51.2538, -85.3232),
    "PE" := Coord(46.5107, -63.4168),
    "QC" := Coord(52.9399, -73.5491),
    "SK" := Coord(52.9399, -106.4509),
    "YT" := Coord(64.2823, -135.0000)
  ]

  /** PROVINCE_ORDER: the abbreviations in the order of the province slider. */
  const ProvinceOrder: seq<string> := [
    "NL", "PE", "NS", "NB", "QC", "ON", "MB",
    "SK", "AB", "BC", "YT", "NT", "NU"
  ]

  // ---------------------------------------------------------------------------
  // How the tables agree with each other.

  /** The thirteen provinces are distinct and each reads its own file. */
  lemma ProvinceFilesDistinct()
    ensures |ProvinceFiles| == 13
    ensures forall i, j :: 0 <= i < j < |ProvinceFiles| ==>
              ProvinceFiles[i].0 != ProvinceFiles[j].0 && ProvinceFiles[i].1 != ProvinceFiles[j].1
  {
  }

  /** Every province has an abbreviation, and no two provinces share one. */
  lemma ProvinceAbbrevInjective()
    ensures forall k :: 0 <= k < |ProvinceFiles| ==> ProvinceFiles[k].0 in ProvinceAbbrev
    ensures forall i, j :: 0 <= i < j < |ProvinceFiles| ==>
              ProvinceAbbrev[ProvinceFiles[i].0] != ProvinceAbbrev[ProvinceFiles[j].0]
  {
  }

  /** The slider order lists every abbreviation exactly once. */
  lemma ProvinceOrderIsPermutation()
    ensures |ProvinceOrder| == 13
    ensures forall i, j :: 0 <= i < j < |ProvinceOrder| ==> ProvinceOrder[i] != ProvinceOrder[j]
    ensures forall a :: a in ProvinceOrder <==> a in ProvinceAbbrev.Values
  {
    AbbrevsInOrder();
    OrderHasAbbrevs();
  }

  /** Every abbreviation has a place on the slider. */
  lemma AbbrevsInOrder()
    ensures forall a :: a in ProvinceAbbrev.Values ==> a in ProvinceOrder
  {
    forall n | n in ProvinceAbbrev ensures ProvinceAbbrev[n] in ProvinceOrder {
    }
  }

  /** Every slider position holds an abbreviation: the one of its display name, or of Yukon. */
  lemma OrderHasAbbrevs()
    ensures forall a :: a in ProvinceOrder ==> a in ProvinceAbbrev.Values
  {
    var names := ["Newfoundland and Labrador", "Prince Edward Island", "Nova Scotia", "New Brunswick",
                  "Quebec", "Ontario", "Manitoba", "Saskatchewan", "Alberta", "British Columbia",
                  "Yukon", "Northwest Territories", "Nunavut"];
    forall i | 0 <= i < |ProvinceOrder| ensures ProvinceOrder[i] in ProvinceAbbrev.Values {
      assert names[i] in ProvinceAbbrev && ProvinceAbbrev[names[i]] == ProvinceOrder[i];
    }
  }

  /** Every abbreviation has map coordinates and a display name, as the engineer table needs. */
  lemma AbbrevsHaveCoordsAndNames()
    ensures forall n :: n in ProvinceAbbrev ==>
              ProvinceAbbrev[n] in ProvinceCoords && ProvinceAbbrev[n] in AbbrevToName
    ensures ProvinceCoords.Keys == AbbrevToName.Keys == ProvinceAbbrev.Values
  {
    forall a | a in ProvinceCoords ensures a in ProvinceAbbrev.Values {
      assert a in ProvinceOrder;
      ProvinceOrderIsPermutation();
    }
  }

  /** The display-name table inverts the abbreviation table, except that YT is named "Yukon Territory". */
  lemma AbbrevToNameInverts()
    ensures forall n :: n in ProvinceAbbrev && n != "Yukon" ==> AbbrevToName[ProvinceAbbrev[n]] == n
    ensures ProvinceAbbrev["Yukon"] == "YT" && AbbrevToName["YT"] == "Yukon Territory"
  {
    forall n | n in ProvinceAbbrev && n != "Yukon" ensures AbbrevToName[ProvinceAbbrev[n]] == n {
      var a := ProvinceAbbrev[n];
      assert a in AbbrevToName;
    }
  }

  /** The slider runs over indices 0..12; each picks an abbreviation with a display name. */
  lemma SliderIndicesInRange(i: int)
    requires 0 <= i <= 12
    ensures i < |ProvinceOrder| && ProvinceOrder[i] in AbbrevToName
  {
  }

  /** Category k is listed k-th, and its display name begins with "k ", so the text after the first space is its name. */
  lemma NocCategoriesWellFormed()
    ensures |NocCategories| == 10
    ensures forall k :: 0 <= k < |NocCategories| ==> NocCategories[k].0 == k
    ensures forall k :: 0 <= k < |NocCategories| ==> HasCategoryPrefix(NocCategories[k].1, k)
  {
    forall k | 0 <= k < |NocCategories| ensures HasCategoryPrefix(NocCategories[k].1, k) {
      var s := NocCategories[k].1;
      DigitsOfSmall(k);
      assert s[..2][0] == s[0] && s[..2][1] == s[1];
      assert s[..2] == [DigitChar(k)] + " ";
    }
  }

  /** The service and engineer names are distinct, so filling a dictionary by them loses no entry. */
  lemma GroupNamesDistinct()
    ensures forall i, j :: 0 <= i < j < |EssentialOccupations| ==> EssentialOccupations[i].0 != EssentialOccupations[j].0
    ensures forall i, j :: 0 <= i < j < |EngineerOccupations| ==> EngineerOccupations[i].0 != EngineerOccupations[j].0
  {
  }
}
