# Trafiklab travel cards, modelled in Dafny

This project models the logic underneath a Home Assistant dashboard card that
shows public-transport trips from a Trafiklab (Resrobot) travel sensor. It
covers the two card elements and the card editor:

- `TrafiklabCard` and `TrafiklabView` model `src/trafiklab-travel-card.ts`.
  This covers configuration defaults, reading trips and legs from the sensor's
  attributes in all the shapes it accepts, the stop, coordinate and icon
  classifiers, and the leg label. It also covers the trip-row layout that
  elides the middle of long trips, the duration sum, times, the card size and
  translations.
- `TravelCard` models the simpler card in `src/travel-card.ts`. This covers its
  `legs` getter, stop and coordinate fallbacks, leg type and line, the
  `prettyType` labels, and the row of pins, legs and arrows that `render`
  produces.
- `CardEditor` models `src/trafiklab-travel-card-editor.ts` as a class holding
  the configuration and the log of `config-changed` events it dispatched. It
  covers `setConfig`, the `_valueChanged` handler and the form's
  `value-changed` handler.
- `Icons` models `src/icons.ts` (`modeIcon`) and `Localize` models
  `src/localize.ts`. `MapLinks` builds the OpenStreetMap link both cards share.

The JavaScript these files rely on is modelled explicitly:

- `JsValue` is a JSON-like value with `undefined`, truthiness and the `||` and
  `??` chains, property access that yields `undefined`, `filter(Boolean)`,
  object spread, `String()`, `Number()` and the form `JSON.stringify` writes.
- `JsNum` has numbers with NaN and the infinities, `Math.max`, `Math.floor`,
  `Math.round` and `slice` index arithmetic.
- `JsString` has lowercasing, `includes`, `split` and `join`, `replaceAll`,
  `padStart` and decimal digits.
- `KeywordRules` models the ordered regular-expression tests
  `(word|word|...)` as rule tables with a first-match function.

Numbers are exact reals, not doubles. Dates, `toFixed(6)` and the translation
files are parameters: an oracle `parsed` for a successful `new Date(s)`, a
function `fixed6`, and the dictionaries `en` and `sv`.

Where the two cards read the same data differently, lemmas state the
difference:

- `EmptyLineDiffers`: an empty line string.
- `FlatLegHasNoStop`: a leg that carries its own coordinates.
- `StopAgreesWithPlace`: null versus undefined stop fields.
- `LegsMatchFirstTrip`: the legs of the first trip.

The editor compares configurations by their JSON text. The model compares
`JsonForm` values. These agree exactly because of the following:

- `_valueChanged` either overwrites an existing property, which keeps its
  position, or appends a new one at the end.
- The form handler spreads the old configuration first and then writes the
  five form fields. Each one is either already present, which keeps its
  position, or new, which appends it in a fixed order and always changes the
  text.
- In both cases the old and the new object list their properties in the same
  order.

## Model

| member | source | states |
|---|---|---|
| KeywordRules.MatchIndex | src/icons.ts:3-10 | the index of the first rule whose regular expression matches; no earlier rule matches, and the rule at the index does |
| KeywordRules.FirstMatch | src/icons.ts:3-10 | the result of the first matching rule, or the fallback when none matches; the result is always the fallback or some rule's result |
| KeywordRules.KeywordRuleMatches | src/icons.ts:3-9 | a rule matches any string containing one of its words |
| KeywordRules.ExpressBusContainsBus | src/trafiklab-travel-card.ts:193 | a string matching `express\s*bus` contains "bus" |
| KeywordRules.MatchIndexSamePatterns | src/travel-card.ts:165-171 | two rule tables with the same expressions in the same order pick the same rule for every string |
| Icons.ModeIcon | src/icons.ts:1-11 | `modeIcon` returns one of its eight icon names, and the generic path icon exactly when no rule matches the lowercased type |
| Icons.ModeIconFirstRule | src/icons.ts:3-9 | the icon of the first matching rule is returned |
| Icons.ModeIconIgnoresCase | src/icons.ts:2 | the icon does not depend on the type's letter case |
| Icons.ModeIconEmpty | src/icons.ts:2 | a missing or empty type gets the generic path icon |
| Icons.ModeIconWalkFirst | src/icons.ts:3 | a type containing walk, foot or gå is a walk, whatever else it contains |
| Icons.ModeIconTrainSwedish | src/icons.ts:5 | "tåg" (train) gets the train icon unless an earlier rule matches |
| Localize.Language | src/localize.ts:7 | the language is `hass.locale.language`, else `hass.language`, else "en", and is never falsy |
| Localize.Dictionary | src/localize.ts:8 | one of the two dictionaries, never anything else |
| Localize.DictionaryRule | src/localize.ts:7-8 | for two different dictionaries, Swedish exactly when the language text starts with "s" or "S" and then "v" or "V", English otherwise |
| Localize.DictionaryExamples | src/localize.ts:7-8 | "SV-se" in the locale selects Swedish over `hass.language` "en"; "en-GB" selects English; "sv" selects Swedish; no language at all selects English |
| Localize.DescendFalsy | src/localize.ts:9 | once the lookup reaches a falsy value, every further segment gives undefined |
| Localize.DescendAppend | src/localize.ts:9 | descending by a joined path is descending by its parts in turn |
| Localize.Lookup | src/localize.ts:9 | the value at the dotted path when truthy, otherwise the path itself; never falsy for a non-empty path |
| Localize.LookupSegments | src/localize.ts:9 | a path of dot-free segments is looked up segment by segment |
| Localize.LookupTwoLevels | src/localize.ts:9 | a two-level key present in the dictionary returns its text |
| Localize.LookupMissingKey | src/localize.ts:9 | a path whose first segment is absent returns the path |
| Localize.Placeholder | src/localize.ts:11 | the placeholder is the key in braces |
| Localize.SubstituteAbsent | src/localize.ts:11 | a text containing none of the placeholders is unchanged |
| Localize.SubstituteAppend | src/localize.ts:11 | substituting two lists of variables is substituting one after the other |
| Localize.SubstituteOne | src/localize.ts:11 | one variable replaces its leftmost placeholder by the value's string and continues after it |
| Localize.Localize | src/localize.ts:6-12 | without variables, the looked-up value; with variables, the looked-up text with every placeholder replaced; a TypeError only when variables are given and the looked-up value is not a string |
| Localize.LocalizeMissing | src/localize.ts:9-11 | a missing translation shows the path, with the variables substituted into it |
| MapLinks.MapLink | src/trafiklab-travel-card.ts:175-180 | no link exactly when the latitude or the longitude is undefined or null |
| MapLinks.LinkParts | src/travel-card.ts:99 | a link splits at its `#` into the query and the map fragment |
| MapLinks.LinkQuery | src/travel-card.ts:99 | the query reads back as `mlat` and `mlon` |
| MapLinks.LinkFragment | src/travel-card.ts:99 | the fragment reads back as zoom 16 and the two coordinates |
| MapLinks.MapLinkCoordsAgree | src/travel-card.ts:95-100 | the query and the fragment carry the same rendered coordinates |
| TrafiklabData.ConfigValue | src/trafiklab-travel-card.ts:82 | `this._config?.[key]`, undefined without a configuration |
| TrafiklabData.EntityOf | src/trafiklab-travel-card.ts:87-91 | undefined without a truthy entity id, otherwise the state stored under the id's string |
| TrafiklabData.Attributes | src/trafiklab-travel-card.ts:105 | truthy attributes as they are, otherwise an empty object; never falsy |
| TrafiklabData.GetTrips | src/trafiklab-travel-card.ts:102-114 | the truthy entries of `trips` when it is an array; otherwise one pseudo-trip from `legs` or `trip.legs`; otherwise none; every trip is truthy |
| TrafiklabData.GetTripsKeepsOrder | src/trafiklab-travel-card.ts:107 | the trips keep their order: filtering a concatenation is concatenating the filtered parts |
| TrafiklabData.LowerText | src/trafiklab-travel-card.ts:118-119 | undefined exactly for the empty string; otherwise as long as its input, each capital moved to its lower-case letter 32 code points up, every other character kept |
| TrafiklabData.LegType | src/trafiklab-travel-card.ts:116-120 | the first truthy of category, type, mode, transport_mode, product.category and product.mode, lowercased; undefined when none is truthy |
| TrafiklabData.LegLine | src/trafiklab-travel-card.ts:122-126 | the first present of line, line_number, number and product.line, as a string; undefined when it is "" or none is present |
| TrafiklabData.PlaceOf | src/trafiklab-travel-card.ts:132-136 | name, lat and lon are each the first present of `name, stop_name, stop, id`, `lat, latitude` and `lon, lng, longitude`, or the last alias when none is; a coordinate is missing only when all its aliases are |
| TrafiklabData.StopAt | src/trafiklab-travel-card.ts:128-148 | no stop for a falsy leg or a nested value that is no object; otherwise the place of `from ?? origin ?? leg` (`to ?? destination ?? leg`) |
| TrafiklabData.StopFromFlatLeg | src/trafiklab-travel-card.ts:130 | a leg without from and origin is its own start stop |
| TrafiklabData.FirstCoordForTrip | src/trafiklab-travel-card.ts:150-161 | none without legs; the first leg's stop when it has coordinates; otherwise the entity's `start_lat ?? origin_lat ?? lat` and `start_lon ?? origin_lon ?? lon ?? lng`, named `start_name ?? origin_name`, or none when either is nullish; any result has coordinates |
| TrafiklabData.LastCoordForTrip | src/trafiklab-travel-card.ts:163-173 | none without legs; the last leg's stop when it has coordinates; otherwise the entity's `end_lat ?? destination_lat` and `end_lon ?? destination_lon`, named `end_name ?? destination_name`, or none when either is nullish; any result has coordinates |
| TrafiklabData.LastCoordIgnoresPlainLatLon | src/trafiklab-travel-card.ts:168-172 | the end falls back only to end_lat and destination_lat, never a plain `lat` |
| TrafiklabData.StartIsCoordinate | src/trafiklab-travel-card.ts:407-417 | the start is a coordinate iff the start has coordinates, or the origin or start type mentions "coord", or the first leg's origin (or from) object has coordinates |
| TrafiklabData.EndIsCoordinate | src/trafiklab-travel-card.ts:419-429 | the same for the end, with destination or end type and the last leg's destination (or to) |
| TrafiklabView.IconForType | src/trafiklab-travel-card.ts:189-200 | undefined exactly for a missing or empty type; otherwise one of the eight icons, and the generic one exactly when no rule matches |
| TrafiklabView.IconForTypeFirstRule | src/trafiklab-travel-card.ts:191-198 | a type gets the icon of the earliest matching rule, in the order walk, bus, train, metro, tram, ferry, car |
| TrafiklabView.BusRuleIsBus | src/trafiklab-travel-card.ts:193 | the bus expression matches exactly the strings containing "bus" |
| TrafiklabView.WalkIconAgrees | src/trafiklab-travel-card.ts:192 | a type this card draws as a walk is one `modeIcon` also draws as a walk |
| TrafiklabView.IconForEndpoint | src/trafiklab-travel-card.ts:202-207 | the map marker for a coordinate; otherwise the train-bus icon exactly when the leg type is a train, else the bus stop |
| TrafiklabView.IsWalkIgnoresMode | src/trafiklab-travel-card.ts:209-212 | a leg whose type comes only from `mode` has that type lowercased, yet is never a walk, whatever the mode says |
| TrafiklabView.MetersLabel | src/trafiklab-travel-card.ts:214-219 | a label exactly for a present distance whose number is finite and positive; it is digits followed by " m" |
| TrafiklabView.MetersLabelReadsBack | src/trafiklab-travel-card.ts:218 | the digits read back as a number within one half of the distance |
| TrafiklabView.LegLabel | src/trafiklab-travel-card.ts:334-340 | "Transfer" for a transfer type, otherwise the meters label for a walk and the line for anything else |
| TrafiklabView.WalkLegShowsMeters | src/trafiklab-travel-card.ts:338-340 | a walk that is not a transfer shows nothing or a meters label |
| TrafiklabView.LegCap | src/trafiklab-travel-card.ts:276-277 | the cap is NaN or at least 1, and 12 when max_legs is undefined |
| TrafiklabView.LegCapNumber | src/trafiklab-travel-card.ts:277 | a numeric max_legs gives the larger of 1 and that number |
| TrafiklabView.Columns | src/trafiklab-travel-card.ts:301 | consecutive leg columns lo..hi-1, each with an arrow after it except the last unless asked |
| TrafiklabView.RowLayout | src/trafiklab-travel-card.ts:300-312 | every leg up to the cap exactly when the legs fit; otherwise a left part and a right part, both within the trip |
| TrafiklabView.RowWithinCap | src/trafiklab-travel-card.ts:300-301 | a trip within the cap shows every leg in order, arrows between, and no ellipsis |
| TrafiklabView.ElidedCounts | src/trafiklab-travel-card.ts:303-312 | with the budget e = 2q or 2q+1 and at least e+2 legs, the left part has q+1 legs and the right part starts at total-1-(e-q) |
| TrafiklabView.RowElided | src/trafiklab-travel-card.ts:303-312 | the split for the budget e keeps legs 0..q and total-1-(e-q)..total-1 |
| TrafiklabView.RowOverBudget | src/trafiklab-travel-card.ts:300-312 | whatever the cap, over it with the budget e the row keeps legs 0..q and total-1-(e-q)..total-1 |
| TrafiklabView.RowOverCap | src/trafiklab-travel-card.ts:300-312 | over an integer cap m: d = max(2, m) legs shown, the left part leftExtra+1 legs from the first, the right part from total-1-rightExtra to the last, disjoint and ordered, the right part at most one longer |
| TrafiklabView.RowOverCapDots | src/trafiklab-travel-card.ts:313-322 | over the cap the row holds exactly two ellipses |
| TrafiklabView.RowExample | src/trafiklab-travel-card.ts:300-322 | 20 legs with max_legs 6 show legs 0-2, the double ellipsis and legs 17-19 |
| TrafiklabView.RowCapOne | src/trafiklab-travel-card.ts:303-312 | a cap of at most 2 that the legs exceed shows only the first and the last leg, so max_legs 1 on two legs elides nothing yet shows the ellipses |
| TrafiklabView.RowNaNCap | src/trafiklab-travel-card.ts:277-322 | a NaN max_legs shows no left part, the double ellipsis, and then every leg |
| TrafiklabView.TripLayout | src/trafiklab-travel-card.ts:275-277 | a trip's layout shows every leg exactly when `trip.legs` fits the cap derived from the configuration's max_legs |
| TrafiklabView.TripLayoutDefaultWithin | src/trafiklab-travel-card.ts:275-301 | without max_legs, a trip of at most 12 legs shows every leg |
| TrafiklabView.TripLayoutDefaultOver | src/trafiklab-travel-card.ts:275-312 | without max_legs, a trip of more than 12 legs shows its first six and its last six legs |
| TrafiklabView.DefaultCapOver | src/trafiklab-travel-card.ts:276-312 | the default cap of 12 over more than 12 legs keeps legs 0 to 5 and the last six |
| TrafiklabView.CappedLegs | src/trafiklab-travel-card.ts:278 | all legs when they fit and when they do not; none for a NaN cap |
| TrafiklabView.EndpointIcons | src/trafiklab-travel-card.ts:279-286 | each endpoint icon comes from its coordinate test and the first or last shown leg's type |
| TrafiklabView.EndpointIconsNaNCap | src/trafiklab-travel-card.ts:278-285 | with a NaN cap no leg is consulted and a non-coordinate start is a bus stop |
| TrafiklabView.EndpointHref | src/trafiklab-travel-card.ts:287-288 | a link exactly when map links are on, the endpoint is a coordinate and its stop has coordinates; then the stop's map link |
| TrafiklabView.FormatDurationReadsBack | src/trafiklab-travel-card.ts:383-388 | "h:mm" reads back as the floored, non-negative number of minutes |
| TrafiklabView.ParseHMOf | src/trafiklab-travel-card.ts:385-387 | hours and two-digit minutes read back as h*60+r |
| TrafiklabView.PaddedMinutes | src/trafiklab-travel-card.ts:387 | minutes below 60 are written as exactly two digits of their value |
| TrafiklabView.FormatTime | src/trafiklab-travel-card.ts:390-405 | a value that does not parse as a date and has no space is returned unchanged |
| TrafiklabView.FormatTimeFallback | src/trafiklab-travel-card.ts:400-403 | "date time" gives the first five characters of the time |
| TrafiklabView.FormatTimeTrailingSpace | src/trafiklab-travel-card.ts:401-402 | a date followed by a space and nothing else is returned whole |
| TrafiklabView.FormatTimeParsed | src/trafiklab-travel-card.ts:393-396 | a parsed date is written as "hh:mm" |
| TrafiklabView.SumAppend | src/trafiklab-travel-card.ts:376 | the sum of a concatenation is the sum of the parts |
| TrafiklabView.FiniteDurationsAppend | src/trafiklab-travel-card.ts:375 | the finite durations of a concatenation are those of the parts |
| TrafiklabView.DurationStep | src/trafiklab-travel-card.ts:374-378 | one more leg adds its finite duration, if any, to the list and to the sum |
| TrafiklabView.SumDurationMinutes | src/trafiklab-travel-card.ts:370-381 | undefined for a non-array or empty list and when no leg has a finite numeric duration; otherwise the sum of those durations |
| TrafiklabView.DepartureTime | src/trafiklab-travel-card.ts:289 | undefined when there is no first leg or it is falsy; otherwise its `origin_time` when truthy, else its `departure` |
| TrafiklabView.ArrivalTimeAsWritten | src/trafiklab-travel-card.ts:290 | a TypeError exactly when the last leg is undefined or null |
| TrafiklabView.ArrivalTime | src/trafiklab-travel-card.ts:289-290 | undefined when there is no last leg or it is falsy; otherwise its `dest_time` when truthy, else its `arrival` |
| TrafiklabView.ArrivalTimeAgrees | src/trafiklab-travel-card.ts:290 | wherever the code as written returns, it returns the corrected arrival time |
| TrafiklabView.ArrivalTimeMirrorsDeparture | src/trafiklab-travel-card.ts:289-290 | the corrected arrival is the departure rule applied to the last leg with its time fields renamed |
| TrafiklabView.ArrivalThrowsOnNullLeg | src/trafiklab-travel-card.ts:289-290 | a sensor trip whose only leg is null gets through and makes the arrival time throw |
| TrafiklabView.CardSize | src/trafiklab-travel-card.ts:80-85 | NaN exactly when max_items is not a number; otherwise at least 3 |
| TrafiklabView.CardSizeBounds | src/trafiklab-travel-card.ts:80-85 | with max_items k the size lies between 3 and 2k+1 |
| TrafiklabView.CardSizeValue | src/trafiklab-travel-card.ts:80-85 | with a whole max_items k the size is exactly max(3, min(trips or 1, k) times 2 with details or 1 without, plus 1) |
| TrafiklabView.CardSizeDefault | src/trafiklab-travel-card.ts:80-85 | with max_items 3 and no details, three or more trips make the card 4 rows high, fewer make it 3 |
| TrafiklabView.ShownTrips | src/trafiklab-travel-card.ts:251 | a prefix of the trips: floor(max_items) of them when in range, all for +Infinity or at least the count, none for NaN, -Infinity or at most minus the count, and count + k for a negative whole k |
| TrafiklabCard.NormalizeConfig | src/trafiklab-travel-card.ts:66-78 | rejected exactly for a falsy configuration or entity; otherwise the defaults overridden by the supplied fields, with `type` always the card type |
| TrafiklabCard.NormalizeConfigIdempotent | src/trafiklab-travel-card.ts:66-78 | feeding a normalised configuration back in changes nothing |
| TrafiklabCard.DefaultCardSize | src/trafiklab-travel-card.ts:80-85 | without max_items the card is between 3 and 7 rows high |
| TrafiklabCard.TrafiklabTravelCard.constructor | src/trafiklab-travel-card.ts:47-56 | no configuration and no hass |
| TrafiklabCard.TrafiklabTravelCard.SetConfig | src/trafiklab-travel-card.ts:66-78 | stores the normalised configuration, or fails with the entity error and keeps the previous one |
| TrafiklabCard.TrafiklabTravelCard.SetHass | src/trafiklab-travel-card.ts:48-51 | stores hass and nothing else |
| TrafiklabCard.TrafiklabTravelCard.Trips | src/trafiklab-travel-card.ts:102-114 | no trips without an entity id; every trip truthy |
| TrafiklabCard.TrafiklabTravelCard.Size | src/trafiklab-travel-card.ts:80-85 | 3 without a configuration, otherwise at least 3 |
| TrafiklabCard.TrafiklabTravelCard.Shown | src/trafiklab-travel-card.ts:251 | a prefix of the trips |
| TrafiklabCard.TrafiklabTravelCard.T | src/trafiklab-travel-card.ts:93-99 | the same lookup as `localize`; a non-empty path without variables always gives a truthy text |
| TrafiklabCard.UnconfiguredSize | src/trafiklab-travel-card.ts:80-85 | an unconfigured card has no trips and is 3 rows high |
| TravelCard.NormalizeConfig | src/travel-card.ts:18-21 | rejected with "entity is required" exactly for a falsy configuration or entity; otherwise the defaults overridden by the supplied fields |
| TravelCard.ConfigKeepsType | src/travel-card.ts:20 | a supplied `type` is kept |
| TravelCard.EntityFor | src/travel-card.ts:27-29 | the state stored under the entity's string, under "undefined" without a configuration |
| TravelCard.LegsOf | src/travel-card.ts:31-40 | the truthy entries of the first array among legs, trip.legs and trips[0].legs; none without an entity; none when no candidate is an array |
| TravelCard.LegsMatchFirstTrip | src/travel-card.ts:37-39 | with only a trips array, the legs are the first listed trip's, without its falsy legs |
| TravelCard.StopOf | src/travel-card.ts:42-51 | a stop exactly for a truthy object; name, id, lat and lon are each the first present of `name, stop_name, stop, id`, `id, stop_id`, `lat, latitude` and `lon, lng, longitude`, undefined when none is; no field is null |
| TravelCard.StopChain | src/travel-card.ts:46-49 | an alias chain ended by `?? undefined` is never null, is nullish exactly when the chain without the ending is, and picks its first present alias or undefined |
| TravelCard.NameChainUndefined | src/travel-card.ts:46-49 | each `?? undefined` chain gives its present alias or undefined |
| TravelCard.StopAgreesWithPlace | src/travel-card.ts:46-49 | name and coordinates agree with the other card's stop, a null becoming undefined |
| TravelCard.LegType | src/travel-card.ts:53-56 | the first truthy of type, mode, product.category and product.mode, lowercased, or "" |
| TravelCard.LegLine | src/travel-card.ts:58-61 | the first present of line, number and product.line as a string; undefined only when none is present |
| TravelCard.EmptyLineDiffers | src/travel-card.ts:60 | an empty line string is a line here and none in the other card |
| TravelCard.FlatLegHasNoStop | src/travel-card.ts:63-65 | a leg with coordinates but no from or origin has no start stop here, while the other card uses the leg itself |
| TravelCard.FirstCoord | src/travel-card.ts:70-81 | none without legs; the first leg's start stop when it has coordinates; otherwise the entity's `start_lat ?? origin_lat ?? lat` and `start_lon ?? origin_lon ?? lon ?? lng` with no place id, or none when either is nullish; any result has coordinates |
| TravelCard.LastCoord | src/travel-card.ts:83-93 | none without legs; the last leg's end stop when it has coordinates; otherwise the entity's `end_lat ?? destination_lat` and `end_lon ?? destination_lon`, or none when either is nullish, so a plain `lat` is never used |
| TravelCard.Capitalized | src/travel-card.ts:172 | the upper-cased first character, then the rest of the type unchanged; a lower-case ASCII letter becomes its capital, the length kept |
| TravelCard.PrettyType | src/travel-card.ts:162-173 | "" exactly for the empty type; the type capitalised when no rule matches |
| TravelCard.PrettyTypeMatchesIcon | src/travel-card.ts:162-173 | a leg's label and its `modeIcon` come from the same rule, or are both the fallbacks |
| TravelCard.LabelText | src/travel-card.ts:135-142 | never empty; with a type, the pretty type followed by a space and the line when there is a non-empty line ("Bus 4"), or the bare pretty type ("Bus"); a space and the line without a type; "Leg" without a type exactly when there is no line |
| TravelCard.LegRunShape | src/travel-card.ts:118 | leg i at position 2i, an arrow between neighbours, none after the last |
| TravelCard.LegRunIndices | src/travel-card.ts:118 | a run of n legs shows only legs below n |
| TravelCard.ShownCount | src/travel-card.ts:105 | at most all legs; all of them when max_legs is undefined, infinite or at least the leg count (the default 12 on a shorter trip); none when it is NaN, minus infinity or below 1 and not negative |
| TravelCard.ShownCountNat | src/travel-card.ts:105 | a whole max_legs m shows min(m, legs) legs |
| TravelCard.RowItemsShape | src/travel-card.ts:105-122 | with max_legs m, exactly the first min(m, legs) legs are shown, in order, between the optional pins, so every leg when m is at least the leg count |
| TravelCard.TravelCard.constructor | src/travel-card.ts:15-16 | no configuration and no hass |
| TravelCard.TravelCard.SetConfig | src/travel-card.ts:18-21 | stores the merged configuration, or fails and keeps the previous one |
| TravelCard.TravelCard.SetHass | src/travel-card.ts:15 | stores hass and nothing else |
| TravelCard.TravelCard.Legs | src/travel-card.ts:31-40 | every leg is truthy |
| TravelCard.TravelCard.Row | src/travel-card.ts:102-128 | the "not found" card without an entity; a TypeError for an entity before any configuration; otherwise the pins, legs and arrows |
| CardEditor.EditorConfig | src/trafiklab-travel-card-editor.ts:11-14 | the base fields overridden by the supplied ones; the base alone for undefined or null |
| CardEditor.StartConfig | src/trafiklab-travel-card-editor.ts:17 | the stored configuration, or just type and an empty entity |
| CardEditor.CoercedValue | src/trafiklab-travel-card-editor.ts:24-27 | a max_legs value becomes its number unless that is NaN; any other key's value is unchanged |
| CardEditor.ValueChangedConfig | src/trafiklab-travel-card-editor.ts:20-30 | unchanged without a key; only the key's property can change; a checkbox stores checked; anything else stores the value unless it is undefined |
| CardEditor.ValueChangedIdempotent | src/trafiklab-travel-card-editor.ts:20-30 | handling the same event again changes nothing more |
| CardEditor.MaxLegsTextIsNumber | src/trafiklab-travel-card-editor.ts:23-29 | a max_legs field holding the digits of n stores the number n |
| CardEditor.StoresValue | src/trafiklab-travel-card-editor.ts:23-29 | a text field with a known key and coerced value stores that value under that key |
| CardEditor.OtherKeyNotCoerced | src/trafiklab-travel-card-editor.ts:23-29 | any other field stores its text unchanged |
| CardEditor.FormData | src/trafiklab-travel-card-editor.ts:43-59 | each of the five fields is the stored value when present, else its default |
| CardEditor.FormShowsSetConfig | src/trafiklab-travel-card-editor.ts:43-49 | after `setConfig` with present values the form shows the stored fields |
| CardEditor.NumberOr | src/trafiklab-travel-card-editor.ts:92-93 | a number is kept; anything else becomes its number when that is truthy, else the default; never falsy for a non-number |
| CardEditor.FormFields | src/trafiklab-travel-card-editor.ts:86-94 | exactly the five form fields; a missing entity becomes ''; max_legs and max_items kept when numbers, else `Number(v)` when truthy, else 12 and 3 |
| CardEditor.FormConfig | src/trafiklab-travel-card-editor.ts:86-94 | the old fields kept; the entity as given, or '' when missing; show_details true exactly for a truthy value, show_map_links false only for an explicit false; max_legs and max_items kept when numbers, else `Number(v)` when truthy, else 12 and 3; type set when there was no configuration |
| CardEditor.FormConfigIdempotent | src/trafiklab-travel-card-editor.ts:86-94 | applying the same form change again changes nothing |
| CardEditor.FormEchoUnchanged | src/trafiklab-travel-card-editor.ts:85-98 | a configuration whose fields are in normal form survives the form reporting back the data it was shown |
| CardEditor.FormFieldsEcho | src/trafiklab-travel-card-editor.ts:86-94 | reading back the form data of a normal-form configuration gives its five fields |
| CardEditor.FormConfigShaped | src/trafiklab-travel-card-editor.ts:86-94 | the form always writes normal-form fields |
| CardEditor.TrafiklabTravelCardEditor.constructor | src/trafiklab-travel-card-editor.ts:9 | no configuration and no events |
| CardEditor.TrafiklabTravelCardEditor.SetConfig | src/trafiklab-travel-card-editor.ts:11-14 | stores the merged configuration without an event |
| CardEditor.TrafiklabTravelCardEditor.ValueChanged | src/trafiklab-travel-card-editor.ts:16-35 | the bare configuration persists; the update is stored and logged as an event exactly when its JSON differs; no event without a key |
| CardEditor.TrafiklabTravelCardEditor.FormChanged | src/trafiklab-travel-card-editor.ts:85-98 | the normalised configuration is stored and logged exactly when there was none or its JSON differs |
| CardEditor.ChangedFieldChangesJson | src/trafiklab-travel-card-editor.ts:31 | a property changed to a value with another JSON form changes the configuration's JSON |
| CardEditor.ToggleEmits | src/trafiklab-travel-card-editor.ts:28-34 | toggling a stored checkbox setting always dispatches the new setting |
| JsValue.FirstTruthy | src/trafiklab-travel-card.ts:118 | an or-chain gives its first truthy operand, or the last |
| JsValue.FirstPresent | src/trafiklab-travel-card.ts:124 | a `??` chain gives its first operand that is not undefined or null, or the last |
| JsValue.FirstPresentNullish | src/trafiklab-travel-card.ts:124 | a `??` chain is undefined or null exactly when every operand is |
| JsValue.FirstPresentThenUndefined | src/travel-card.ts:46-49 | a `??` chain ended by `undefined` gives its first present operand, or undefined when there is none |
| JsValue.FilterTruthy | src/travel-card.ts:39 | `filter(Boolean)` keeps exactly the truthy elements, in order, and keeps an all-truthy list whole |
| JsValue.JsonForm | src/trafiklab-travel-card-editor.ts:31 | undefined only for undefined; null, booleans, strings and finite numbers stay as they are; other numbers become null; an object keeps exactly its non-undefined fields, each in JSON form; an array keeps its length, undefined elements becoming null |
| JsString.Lower | src/icons.ts:2 | same length; each capital becomes the letter 32 code points up, so no capital is left; other characters unchanged |
| JsString.LowerIdempotent | src/travel-card.ts:53-56 | lowercasing twice is lowercasing once |
| JsNum.RelativeIndex | src/travel-card.ts:105 | a `slice` end lies within the list: the truncated number when in range, the length for +Infinity or anything at or above it, 0 for NaN, -Infinity or anything at or below minus the length, and length + k for a negative integer k in range |
| JsNum.NatRoundTrip | src/trafiklab-travel-card-editor.ts:25 | `Number(String(n))` is n for every natural n |

## Left out

- Rendering: Lit templates, styles, `src/style.ts`, icon elements (`haIcon`, `renderIcon`, `renderArrow`), headers, titles, tooltips and the muted "from → to" text are framework rendering. Only what each row shows and in which order is modelled.
- Host integration is not modelled. This covers element registration, `window.customCards`, `getConfigElement`, `_openMoreInfo` and `_onKeyActivate` event dispatch, and the editor's `customElements.get` feature probes. Both editor handlers are modelled whichever widget calls them.
- Dates are an oracle parameter. `new Date(...)`, `getHours`/`getMinutes`, `_formatUpdated` and `shortTime` use JavaScript's date and locale APIs.
- `toFixed(6)` is the parameter `fixed6`, and its rounding is not modelled.
- Numbers are exact reals. Double rounding, `-0` and the exponent notation of `String(number)` are not modelled. A non-integer is written as its exact decimal expansion cut at 20 fraction digits.
- Translation dictionaries are parameters, because the JSON files are not part of this model.
- `$` patterns in the replacement string of `replaceAll` are taken literally.
- Lowercasing and upper-casing cover ASCII and Latin-1 only; other letters are left as they are.
- Lookup: a translation path segment reads only the dictionary's own properties. JavaScript's `acc[key]` also finds inherited ones, so a segment such as `constructor` yields a function there and the path itself here; the card never looks up such a path.
- Named properties of strings and arrays (`"abc".length`, a string's `type`) read as undefined.
- Spreading a string or an array copies nothing here, where JavaScript copies index keys.
- `JSON.stringify` comparison: property order inside an object-valued field is not modelled. Two nested objects with the same properties in another order compare equal here. The editor's own widgets supply primitive values. An object that arrives through `detail.value` or `value.entity` is stored as given and compared without regard to its property order.
- `_modeLabel` (src/trafiklab-travel-card.ts:182-187) is never called by the card. `renderDetails` and the detail lines of `_renderLegColumn` are leg-by-leg text rendering.
- The `getCardSize` of `src/travel-card.ts` is the constant 3.
- `render` of the Trafiklab card before any configuration returns nothing. Its "entity not found" branch and its header are not modelled.

## Findings

| source | as written | input that shows it | evidently intended | confidence | as-written member | corrected member |
|---|---|---|---|---|---|---|
| src/trafiklab-travel-card.ts:290 | the arrival time reads `dest_time` of the last leg without checking that the leg exists; the departure time on line 289 checks its leg first | a sensor whose attributes are `{trips: [{legs: [null]}]}`: the trips array is filtered but the legs inside it are not, so rendering the row throws a TypeError | the arrival time is undefined when the last leg is falsy, mirroring the departure time | not executed | TrafiklabView.ArrivalTimeAsWritten | TrafiklabView.ArrivalTime |
