/**
 * The colour a route's transit edges are drawn with: a palette for CityLink
 * routes, keyed by the route number, and a table keyed by the route type for
 * every other route, each with its own default.
 */
module Colours {
  import opened Wrappers
  import opened RouteText

  const CityLinkType: string := "MTA Local Bus - CityLink"

  /** Colour of a CityLink route whose number is not in the palette. */
  const UnknownCityLinkColour: string := "#dddddd"

  /** Colour of a route whose type is not in the route-type table. */
  const DefaultColour: string := "#2ca02c"

  const CityLinkPalette: map<string, string> := map[
    "BLUE" := "#1f77b4", "BROWN" := "#8c564b", "GOLD" := "#ff7f0e", "GREEN" := "#2ca02c",
    "LIME" := "#00ff00", "NAVY" := "#000080", "ORANGE" := "#d62728", "PINK" := "#ff69b4",
    "PURPLE" := "#9467bd", "RED" := "#ff0000", "SILVER" := "#c0c0c0", "YELLOW" := "#ffff00"]

  /** The route-type table; its CityLink entry holds no colour. */
  const RouteTypeColours: map<string, Option<string>> := map[
    "MTA Commuter Bus" := Some("#4b0082"),
    CityLinkType := None,
    "MTA Local Bus - Express BusLink" := Some("#ffd700"),
    "MTA Local Bus - LocalLink" := Some("#2ca02c")]

  predicate IsHexDigit(c: char) {
    ('0' <= c <= '9') || ('a' <= c <= 'f')
  }

  /** `#rrggbb` in lower-case hexadecimal. */
  predicate IsHexColour(c: string) {
    |c| == 7 && c[0] == '#' && forall i :: 1 <= i < 7 ==> IsHexDigit(c[i])
  }

  lemma PaletteIsHex()
    ensures forall n :: n in CityLinkPalette ==> IsHexColour(CityLinkPalette[n])
  {
    forall n | n in CityLinkPalette ensures IsHexColour(CityLinkPalette[n]) {
      if n == "BLUE" {} else if n == "BROWN" {} else if n == "GOLD" {} else if n == "GREEN" {}
      else if n == "LIME" {} else if n == "NAVY" {} else if n == "ORANGE" {} else if n == "PINK" {}
      else if n == "PURPLE" {} else if n == "RED" {} else if n == "SILVER" {} else {}
    }
  }

  /** The grey for unknown CityLink routes is no palette colour. */
  lemma PaletteLacksUnknown()
    ensures UnknownCityLinkColour !in CityLinkPalette.Values
  {
  }

  lemma RouteTypeTableIsHex()
    ensures forall t :: t in RouteTypeColours && RouteTypeColours[t].Some? ==> IsHexColour(RouteTypeColours[t].value)
    ensures forall t :: t in RouteTypeColours ==> (RouteTypeColours[t] == None <==> t == CityLinkType)
    ensures forall t :: t in RouteTypeColours ==>
      (RouteTypeColours[t] == Some(DefaultColour) <==> t == "MTA Local Bus - LocalLink")
  {
  }

  /**
   * The colour chosen for a route: never absent and always a hex colour.  A
   * CityLink route gets the default grey exactly when its number is not in the
   * palette; any other route gets the default green exactly when its type is
   * unknown or is the local-bus type whose entry is that green.  The table's
   * empty CityLink entry is never read.
   */
  function RouteColour(routeType: string, routeNum: string): (c: Option<string>)
    ensures c.Some? && IsHexColour(c.value)
    ensures routeType == CityLinkType ==>
      (c == Some(UnknownCityLinkColour) <==> Upper(routeNum) !in CityLinkPalette)
    ensures routeType != CityLinkType ==>
      (c == Some(DefaultColour) <==> routeType !in RouteTypeColours || routeType == "MTA Local Bus - LocalLink")
    ensures routeType != CityLinkType && routeType in RouteTypeColours ==> c == RouteTypeColours[routeType]
  {
    PaletteIsHex();
    PaletteLacksUnknown();
    RouteTypeTableIsHex();
    if routeType == CityLinkType then
      Some(if Upper(routeNum) in CityLinkPalette then CityLinkPalette[Upper(routeNum)] else UnknownCityLinkColour)
    else if routeType in RouteTypeColours then RouteTypeColours[routeType]
    else Some(DefaultColour)
  }

  /** A CityLink route in the palette gets its palette colour. */
  lemma CityLinkColourFromPalette(routeNum: string)
    requires Upper(routeNum) in CityLinkPalette
    ensures RouteColour(CityLinkType, routeNum) == Some(CityLinkPalette[Upper(routeNum)])
  {
  }

  /** Any other route whose type is in the table gets that type's colour. */
  lemma RouteTypeColourFromTable(routeType: string, routeNum: string)
    requires routeType != CityLinkType && routeType in RouteTypeColours
    ensures RouteColour(routeType, routeNum) == RouteTypeColours[routeType]
  {
  }

  lemma CommuterAndExpressColours(routeNum: string)
    ensures RouteColour("MTA Commuter Bus", routeNum) == Some("#4b0082")
    ensures RouteColour("MTA Local Bus - Express BusLink", routeNum) == Some("#ffd700")
  {
    RouteTypeColourFromTable("MTA Commuter Bus", routeNum);
    RouteTypeColourFromTable("MTA Local Bus - Express BusLink", routeNum);
  }

  lemma BlueLineColour()
    ensures RouteColour(CityLinkType, "BLUE") == Some("#1f77b4")
  {
    assert Upper("BLUE") == "BLUE";
  }
}
