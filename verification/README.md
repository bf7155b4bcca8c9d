# app4refs in Dafny

A model of the core of app4refs, a directory of local venues, services and links. It has
two halves: a PHP web API that stores these items with
their opening periods, and two JavaScript clients. The first client is a
progressive web app that lists items and shows them on a map. The second is an
administration panel that edits the items.

On the API side the model covers:

- the enumerations for HTTP methods, item types and week days, with their
  string forms;
- the URL patterns: compiling `:name<type>` placeholders, matching a URL
  against them, and extracting the parameters;
- the route table (`UrlMatcher`), the transaction map and the controller
  facade's choice of input and output formats;
- the validation of item bodies (`ItemParsingTransaction`), and the API's
  `Period`, with the range checks of its setters and its conversion to and
  from a field map;
- the two writing transactions. Creating an item inserts it with its periods.
  Updating an item reconciles its stored periods with those sent: kept, changed,
  added and removed. The store is an abstract map from ids to periods.
- the session manager. It reads the token and the Basic credentials from a
  request, and caches the token once accepted. Whether the store accepts a token
  is a parameter. The query and body keys it reads are not declared by the
  interface; the model states it both as written, failing on those keys, and
  with them declared.

On the client side the model covers:

- periods: minute of the week, containment, overlap, grouping into one line per
  run of days, and hour formatting;
- the item record and its ordering in the panel;
- the panel's list maintenance and period editing;
- the two AJAX adapters: query strings, shared parameters, the authorization
  header, and the single pending callback;
- the API services of the web app and of the panel: URLs, the token cache, and
  the callbacks;
- `encodeURIComponent` over UTF-8, and resource URLs;
- HTML escaping and number-array comparison;
- the list and map pages' history states and hashes;
- the router's dispatch from a URL hash and from a popped history state.

Each operation is a pure function over immutable datatypes. The stateful
JavaScript and PHP objects become a state value passed in and returned. The
properties are proved as contracts and lemmas. They cover round trips (pattern
quoting, URL encoding, HTML escaping, history states, hashes, query strings),
the iff-form of every validation, and what each transaction leaves unchanged.
Where the code does something other than what its design or comments
evidently intend, the model keeps both versions; see "Findings".

Modules follow the source files: `HttpMethods`, `ItemTypes`, `WeekDays`,
`TransactionMaps`, `ControllerFacade`, `ApiInterface`, `ApiPeriods`,
`UrlPatterns`, `UrlMatchers`, `ItemBodies`, `ItemTransactions`, `SessionManager`
for the API; `ClientPeriod`, `LegacyPeriod`, `ClientItem`, `ItemsPanel`,
`ApiAjaxAdapter`, `LegacyAjaxAdapter`, `ApiService`, `PanelApiService`,
`UriEncoding`, `ResourcesProvider`, `Utils`, `PageState`, `ListPage`,
`MapPage`, `Router` for the clients; `Common` holds shared sequences, strings
and result types.

## Model

| member | source | states |
|---|---|---|
| HttpMethods.HttpMethod.Val | API/class/HttpMethod.php:15-26 | each method's value is its name in lower case, at least three letters |
| HttpMethods.FromStr | API/class/HttpMethod.php:28-36 | a name is accepted exactly when its upper-case form is that of one of the four methods, and then gives that method; any other name is refused with status 400 and the name itself |
| HttpMethods.ValInjective | API/class/HttpMethod.php:15-26 | two methods have the same value only when they are the same method |
| HttpMethods.FromStrOfVal | API/class/HttpMethod.php:28-34 | parsing a method's own value gives that method back |
| HttpMethods.FromStrIgnoresCase | API/class/HttpMethod.php:29 | two names that differ only in letter case are both accepted or both refused, and give the same method |
| ItemTypes.ItemType.Val | API/class/ItemType.php:16-30 | each of the five types has its own fixed value |
| ItemTypes.ForStr | API/class/ItemType.php:40-46 | a string is accepted exactly when it is one type's value, and then gives that type; any other string is refused with an unknown-type error naming it |
| ItemTypes.ValInjective | API/class/ItemType.php:16-30 | the five values are pairwise distinct |
| ItemTypes.ForStrOfVal | API/class/ItemType.php:40-42 | parsing a type's own value gives that type back |
| WeekDays.WeekDay.Val | API/class/WeekDays.php:14-34 | every day's code has three letters |
| WeekDays.WeekDay.Index | API/class/WeekDays.php:43-44 | a day's place in the order the days are tried, Monday first, is below seven |
| WeekDays.DayAt | API/class/WeekDays.php:43-44 | the day at a place of that order has that place |
| WeekDays.DayAtIndex | API/class/WeekDays.php:43-44 | a day is the day at its own place |
| WeekDays.ForStr | API/class/WeekDays.php:41-51 | a string is accepted exactly when it equals one day's code (case matters), and then gives that day; any other string is refused with an invalid-day error naming it |
| WeekDays.DayCodes | API/class/WeekDays.php:41-50 | the strings the parser accepts are exactly the seven codes |
| WeekDays.ValInjective | API/class/WeekDays.php:14-34 | the seven codes are pairwise distinct |
| WeekDays.ForStrOfVal | API/class/WeekDays.php:41-49 | parsing a day's own code gives that day back |
| TransactionMaps.Empty | API/class/url/TransactionMap.php:23-25 | a new map has size 0, has no class for any method and manages none |
| TransactionMaps.Put | API/class/url/TransactionMap.php:35-49 | storing succeeds exactly for a class implementing the transaction interface; otherwise the error says whether the class is not a transaction or does not exist; on success the method gets the class, the other methods keep theirs, and the size grows by one only when the method was not managed before |
| TransactionMaps.Rem | API/class/url/TransactionMap.php:55-59 | after removal the method has no class, the other methods keep theirs, the size drops by one exactly when the method was managed, and removing an unmanaged method changes nothing |
| TransactionMaps.ManagesIffGet | API/class/url/TransactionMap.php:67-88 | a method is managed exactly when reading it gives a class |
| TransactionMaps.PutThenRem | API/class/url/TransactionMap.php:35-59 | storing a class for an unmanaged method and removing it again restores the map |
| ControllerFacade.SelectFormat | API/class/ControllerFacade.php:56-67 | the format chosen is the default or a text the client sent under the parameter, as a string or as the first element of an array; an absent parameter gives the default and a string gives itself |
| ControllerFacade.ArrayGivesFirst | API/class/ControllerFacade.php:59-63 | an array whose element `0` is a string gives that string |
| ControllerFacade.OtherValuesGiveDefault | API/class/ControllerFacade.php:56-67 | a value that is neither a string nor an array starting with one gives the default |
| ControllerFacade.InputFormat | API/class/ControllerFacade.php:56-67 | the input format is `json` or a text the client sent under `in`, and `json` when `in` is absent |
| ControllerFacade.OutputFormat | API/class/ControllerFacade.php:81-92 | the output format is `json` or a text the client sent under `out`, and `json` when `out` is absent |
| ControllerFacade.FormatsIndependent | API/class/ControllerFacade.php:56-92 | changing the `in` parameter never changes the output format, and changing `out` never changes the input format |
| ApiInterface.DigitsAreNumeric | API/class/transactions/ItemParsingTransaction.php:103-106 | a list index sent as a non-empty run of digits passes the `is_numeric` check |
| ApiInterface.WithoutDigitsNotNumeric | API/class/transactions/ItemParsingTransaction.php:103-106 | a key holding no digit never passes the `is_numeric` check |
| ApiInterface.NumericKeys | API/class/transactions/ItemParsingTransaction.php:103-106 | every integer key and every non-empty run of digits passes the `is_numeric` check; text with no digit at all, the empty string included, does not |
| ApiPeriods.SetStartHour | API/class/Period.php:99-104 | the start hour is set exactly when it lies in 0..23, and no other field changes; otherwise the error is an invalid hour with status 400 and that value |
| ApiPeriods.SetStartMinutes | API/class/Period.php:117-122 | the start minutes are set exactly when they lie in 0..59, and no other field changes; otherwise the error is invalid minutes with status 400 and that value |
| ApiPeriods.SetEndHour | API/class/Period.php:135-140 | the end hour is set exactly when it lies in 0..23, and no other field changes; otherwise the error is an invalid hour with status 400 and that value |
| ApiPeriods.SetEndMinutes | API/class/Period.php:153-158 | the end minutes are set exactly when they lie in 0..59, and no other field changes; otherwise the error is invalid minutes with status 400 and that value |
| ApiPeriods.SetStartDay | API/class/Period.php:184-186 | the start day is replaced and nothing else changes |
| ApiPeriods.SetEndDay | API/class/Period.php:198-200 | the end day is replaced and nothing else changes |
| ApiPeriods.SettersKeepValid | API/class/Period.php:99-158 | a period with hours and minutes in range stays in range after any setter that succeeds |
| ApiPeriods.SetterBounds | API/class/Period.php:99-158 | the bounds are inclusive: 0 and 23 are hours, -1 and 24 are not; 0 and 59 are minutes, -1 and 60 are not |
| ApiPeriods.ToMap | API/class/Period.php:54-64 | the map has the seven period keys in order and never the item id |
| ApiPeriods.FromMapToMap | API/class/Period.php:54-64 | the map loses nothing but the item id: reading it back with the item id gives the period |
| ApiPeriods.ToMapInjective | API/class/Period.php:54-64 | two periods with the same map differ at most in their item id |
| SessionManager.Ucwords | API/class/SessionManager.php:131-133 | a header name keeps its length, with the first letter of every word in upper case |
| SessionManager.LastHeader | API/class/SessionManager.php:131-134 | the value kept for a normalised name is that of the last header carrying it, and there is none exactly when no header normalises to it |
| SessionManager.AuthorizationHeader | API/class/SessionManager.php:119-140 | the `Authorization` variable wins over `HTTP_AUTHORIZATION`, which wins over the request headers; the value found is trimmed of PHP's blanks |
| SessionManager.Capture | API/class/SessionManager.php:76 | the pattern `word\s(class+)` matches somewhere exactly when a capture exists, and the capture is a non-empty run of class characters |
| SessionManager.CaptureOfHeader | API/class/SessionManager.php:76 | a header made of the word, one blank and a token (followed by a character outside the class) captures exactly that token |
| SessionManager.GetToken | API/class/SessionManager.php:73-90 | a token found is never empty, and the only error is an invalid token |
| SessionManager.HeaderTakesPrecedence | API/class/SessionManager.php:74-81 | a non-empty header decides alone, whatever the query holds: it succeeds exactly when `Bearer`, a blank and a hex digit occur in it |
| SessionManager.ParamTokenVerbatim | API/class/SessionManager.php:82-88 | without a header, the `token` parameter is returned unchanged exactly when it holds a hex digit, and is refused as invalid otherwise |
| SessionManager.NoTokenAnywhere | API/class/SessionManager.php:89 | with neither a header nor the parameter there is no token and no error |
| SessionManager.BearerRoundTrip | API/class/SessionManager.php:76-77 | the header `Bearer <hex token>` gives that token back |
| SessionManager.RequireToken | API/class/SessionManager.php:52-61 | a cached token is returned untouched; otherwise a missing token asks for Bearer authorisation, a malformed one is invalid, and a found one is checked; only a success fills the cache |
| SessionManager.RequireTokenStable | API/class/SessionManager.php:52-61 | once a token is accepted, every later call in the same request returns it whatever the headers, the query or the token test given |
| SessionManager.FromBasic | API/class/SessionManager.php:105 | the decoded Basic text splits into at least one piece, none holding `:`; text that does not decode gives one empty piece |
| SessionManager.Credentials | API/class/SessionManager.php:98-117 | the credentials are never empty, and the pair the web server decoded wins over every other source |
| SessionManager.GetUserAndPassword | API/class/SessionManager.php:98-117 | the credentials with the Basic run read as base64 text hold at least one value |
| SessionManager.GetUserAndPasswordAsWritten | API/class/SessionManager.php:98-117 | the credentials with the Basic run restricted to hex digits and `=` hold at least one value |
| SessionManager.CredentialsOrder | API/class/SessionManager.php:102-116 | a Basic header gives strings; without one, the body's user and password are used when both are set, and two nulls otherwise |
| SessionManager.GetTokenUndeclared | API/class/SessionManager.php:73-90 | as written, it agrees with the modelled `getToken` exactly when the header is non-empty; without a header the undeclared `TOKEN_PARAM` is an error, so it never finds "no token" |
| SessionManager.RequireTokenUndeclared | API/class/SessionManager.php:52-90 | as written, with a header or a cached token it is `RequireToken`; without either it fails on the undeclared constant and caches nothing, so the Bearer challenge is never given by the program itself |
| SessionManager.GetUserAndPasswordUndeclared | API/class/SessionManager.php:100-117 | as written, a success is the hex-capture result and holds only strings; reaching the body check is the undeclared-constant error |
| SessionManager.UndeclaredIgnoresBody | API/class/SessionManager.php:108-114 | as written, the body never changes the outcome, and the error happens exactly when the program with the keys declared would read the body |
| SessionManager.BasicSplit | API/class/SessionManager.php:105 | the decoded Basic text comes back as its `:`-separated pieces, nothing lost |
| SessionManager.BasicCaptureAsWritten | API/class/SessionManager.php:104 | for base64 text whose second character is a letter past `F`, the pattern as written captures one character where the base64 class captures the whole text |
| SessionManager.BasicCredentialsAsWritten | API/class/SessionManager.php:104-105 | for such a header the credentials as written decode only the first character, the corrected ones the whole text |
| UrlPatterns.TrimUrl | API/class/url/UrlPattern.php:69-99 | the trimmed text neither starts nor ends with a blank, a NUL or a `/` |
| UrlPatterns.TypeForName | API/class/url/UrlPattern.php:29-118 | a type name is recognised exactly when it is one of `str`, `int`, `flt`, `hex`, and then gives that type |
| UrlPatterns.WordChars | API/class/url/UrlPattern.php:29-34 | a word of any type is non-empty and made of letters, digits, `_`, `-`, `+` and `.` only |
| UrlPatterns.IntWords | API/unitaryTests/url/UrlPatternTest.php:143-163 | `int` takes plain digit runs and refuses letters, signs and the empty word |
| UrlPatterns.StrWords | API/unitaryTests/url/UrlPatternTest.php:168-194 | `str` takes letters, digits, `_` and `-`, and refuses signs, markup and the empty word |
| UrlPatterns.HexWords | API/unitaryTests/url/UrlPatternTest.php:199-230 | `hex` takes hex digits of either case and refuses other letters, `_`, `#`, signs and the empty word |
| UrlPatterns.FltWords | API/unitaryTests/url/UrlPatternTest.php:235-268 | `flt` takes an unsigned decimal, with or without a fraction |
| UrlPatterns.SignedFltWords | API/unitaryTests/url/UrlPatternTest.php:235-268 | `flt` takes a decimal with a leading `+` or `-` |
| UrlPatterns.NonFltWords | API/unitaryTests/url/UrlPatternTest.php:235-268 | `flt` refuses a bare point, a missing integer or fraction part, words and the empty word |
| UrlPatterns.ScanSegment | API/class/url/UrlPattern.php:106 | a segment read as `name<type>suffix` really has that shape: an alphanumeric name, a letter-only type, and a suffix without a line break |
| UrlPatterns.ScanSegmentFinds | API/class/url/UrlPattern.php:106 | every segment of that shape is read, and read as exactly those parts |
| UrlPatterns.ScanSegmentNone | API/class/url/UrlPattern.php:106-109 | a segment the reading refuses has no such shape at all |
| UrlPatterns.ParseParam | API/class/url/UrlPattern.php:104-123 | an accepted segment has the shape of its name, type and suffix; a segment without the shape is an invalid parameter at its position; a shaped segment whose type is unknown is an invalid type at its position |
| UrlPatterns.ParseParams | API/class/url/UrlPattern.php:104-123 | all segments are read in order, one parameter each; an error is the first failing segment's own error, every earlier segment being fine |
| UrlPatterns.ParsePattern | API/class/url/UrlPattern.php:97-130 | the static prefix is the trimmed pattern up to its first `:`; there is one parameter per `:` segment, in order, each shaped as its segment; errors name the trimmed pattern |
| UrlPatterns.ParsePatternIgnoresSurroundings | API/unitaryTests/url/UrlPatternTest.php:34-46 | blanks and slashes around a pattern do not change what it compiles to |
| UrlPatterns.ParsePatternWithoutParams | API/unitaryTests/url/UrlPatternTest.php:77-80 | a pattern without `:` compiles to its trimmed text and no parameters |
| UrlPatterns.SegmentNeedsAngle | API/unitaryTests/url/UrlPatternTest.php:116-126 | a segment without `<` is always refused |
| UrlPatterns.ParseParamAccepts | API/unitaryTests/url/UrlPatternTest.php:101-110 | every alphanumeric name, such as `0Level`, with a known type and any one-line suffix is accepted as that parameter |
| UrlPatterns.TrimSlashes | API/class/url/UrlPattern.php:99 | trimming removes exactly the blanks and slashes around the text |
| UrlPatterns.ParsePatternOneParam | API/unitaryTests/url/UrlPatternTest.php:61-88 | `prefix:name<type>suffix` compiles to that prefix and the one parameter |
| UrlPatterns.ParamNames | API/class/url/UrlPattern.php:122-154 | the parameter names are recorded in pattern order |
| UrlPatterns.PregQuote | API/class/url/UrlPattern.php:119-127 | quoting never shortens the text |
| UrlPatterns.UnquotePregQuote | API/class/url/UrlPattern.php:119-127 | quoting loses nothing: the quoted text reads back as the original, so the expression matches the suffix literally |
| UrlPatterns.DecomposesCons | API/class/url/UrlPattern.php:121-129 | a URL decomposes along the parameters when the first value is a word of its type followed by its suffix and the rest decomposes along the rest |
| UrlPatterns.MatchParams | API/class/url/UrlPattern.php:75 | values found for the parameters are an exact decomposition of the text after the prefix |
| UrlPatterns.MatchParamsComplete | API/class/url/UrlPattern.php:75 | whenever an exact decomposition exists, values are found |
| UrlPatterns.MatchParamsGreedy | API/class/url/UrlPattern.php:75 | the first value found is at least as long as that of any decomposition, as a greedy regular expression takes it |
| UrlPatterns.DecompositionUnique | API/class/url/UrlPattern.php:75 | when every suffix but the last starts with a character no word holds, a URL decomposes in one way only |
| UrlPatterns.CapturesHaveNames | API/class/url/UrlPattern.php:77-79 | every parameter name gets a captured value |
| UrlPatterns.CapturesOnlyNames | API/class/url/UrlPattern.php:77-79 | nothing but parameter names gets a captured value |
| UrlPatterns.CapturesLastWins | API/class/url/UrlPattern.php:77-79 | a name used once gets the value captured for it; a repeated name keeps its last value |
| UrlPatterns.Match | API/class/url/UrlPattern.php:64-89 | no transaction when the method is not managed or the trimmed URL lacks the prefix; a transaction found is the method's class, with the request's query overridden by the values of an exact decomposition, when no key is digit-only |
| UrlPatterns.MatchWithoutParams | API/unitaryTests/url/UrlPatternTest.php:131-294 | a pattern without parameters matches exactly the URLs that trim to its prefix, so a repeated path does not match |
| UrlPatterns.MatchComplete | API/class/url/UrlPattern.php:64-89 | every URL that decomposes after the prefix matches a managed method |
| UrlPatterns.MatchCaptures | API/unitaryTests/url/UrlPatternTest.php:273-285 | with separating suffixes, a match passes the decomposition's values under the parameter names, overriding query entries of the same name, when no key is digit-only |
| UrlPatterns.MatchOneParam | API/unitaryTests/url/UrlPatternTest.php:143-163 | a one-parameter pattern matches `prefix value suffix` for every word of the type and passes that value under the name |
| UrlMatchers.FirstMatch | API/class/url/UrlMatcher.php:49-56 | nothing is found exactly when no pattern matches; otherwise the result is that of the first pattern, in order, that matches |
| UrlMatchers.Serving | API/class/url/UrlMatcher.php:69-76 | each registration map serves its one method with its class and manages no other |
| UrlMatchers.RegisteredPatternsCompile | API/class/url/UrlMatcher.php:79-82 | the four registered pattern texts compile without error to their prefixes and parameters |
| UrlMatchers.RouteIn | API/class/url/UrlMatcher.php:49-58 | routing fails exactly when no registered pattern matches, with a 404 error naming the URL; otherwise it gives the first registered pattern's match |
| UrlMatchers.FirstMatchAt | API/class/url/UrlMatcher.php:51-55 | a pattern that matches after patterns that do not gives the result |
| UrlMatchers.RoutesTable | API/class/url/UrlMatcher.php:69-83 | the table holds exactly four patterns, in order: GET item-types/…/categories, GET categories/…/items, DELETE items/id, POST items, each managing only its method |
| UrlMatchers.NoneServes | API/class/url/UrlMatcher.php:49-56 | a method no pattern manages is never routed |
| UrlMatchers.PutIsNotRouted | API/class/url/UrlMatcher.php:77 | every PUT request ends in the 404 error, since no pattern registers PUT |
| UrlMatchers.DeleteItemMatches | API/class/url/UrlMatcher.php:76-81 | the item pattern matches DELETE `items/<digits>` and passes the digits as `itemId` |
| UrlMatchers.OnlyItemServesDelete | API/class/url/UrlMatcher.php:69-83 | the two category patterns never match a DELETE |
| UrlMatchers.DeleteItemRoute | API/class/url/UrlMatcher.php:49-81 | DELETE `items/<digits>` routes to the delete transaction with `itemId` set |
| UrlMatchers.CreateItemRoute | API/class/url/UrlMatcher.php:49-82 | POST to a URL that trims to `items` routes to the create transaction with the query unchanged |
| UrlMatchers.CategoriesRoute | API/class/url/UrlMatcher.php:49-79 | GET `item-types/<word>/categories` routes to the categories transaction with `itemType` set |
| UrlMatchers.CategoryItemsMatches | API/class/url/UrlMatcher.php:79-80 | GET `categories/<word>/items` is not matched by the first pattern and is matched by the second with `categoryCode` set |
| UrlMatchers.CategoryItemsRoute | API/class/url/UrlMatcher.php:49-80 | GET `categories/<word>/items` routes to the items transaction with `categoryCode` set |
| UrlMatchers.PrefixMismatch | API/class/url/UrlPattern.php:71-73 | a URL whose first character differs from a pattern's prefix is refused by that pattern before any matching |
| ItemBodies.Missing | API/class/transactions/ItemParsingTransaction.php:177-197 | the missing keys are exactly the listed keys not found, in list order |
| ItemBodies.ReadValues | API/class/transactions/ItemParsingTransaction.php:103-129 | an accepted entry has a numeric index unless it is empty, uses only period keys (none of them null when nulls are refused) and records each; a non-numeric index is a list-expected error on `openingHours`; an unknown key is an invalid-param error naming it; a null value is an invalid-value error naming its key |
| ItemBodies.ReadEntry | API/class/transactions/ItemParsingTransaction.php:101-200 | an accepted entry holds at least the threshold of period keys and no other; a short entry is reported with exactly its missing period keys under `openingHours/<index>` |
| ItemBodies.ReadEntries | API/class/transactions/ItemParsingTransaction.php:99-135 | accepted periods are one record per entry, in input order; an error is the error of some entry |
| ItemBodies.ReadPeriods | API/class/transactions/ItemParsingTransaction.php:99-101 | a value that is not an array gives no periods; an array is read entry by entry |
| ItemBodies.ReadKeys | API/class/transactions/ItemParsingTransaction.php:49-82 | the key loop succeeds exactly when no entry is bad, and otherwise fails with a bad entry's own error; on success it records every key in body order |
| ItemBodies.ReadKeysFields | API/class/transactions/ItemParsingTransaction.php:51-77 | with distinct keys, every body value but the opening hours is stored under its key and no other key is stored |
| ItemBodies.ReadKeysPeriods | API/class/transactions/ItemParsingTransaction.php:76-77 | periods are read exactly when the body has opening hours, and are that value's reading |
| ItemBodies.FirstNull | API/class/transactions/ItemParsingTransaction.php:140-153 | no key is reported exactly when every not-null key holds a value; a key reported is one of them holding null or missing |
| ItemBodies.Parse | API/class/transactions/ItemParsingTransaction.php:49-89 | an accepted body uses only item keys, has at least the threshold of them and no null in a not-null key; a missing-keys error lists exactly the item keys absent; a null error names a not-null key |
| ItemBodies.UpdateRequiresAllKeys | API/class/transactions/ItemParsingTransaction.php:84-176 | the update threshold, 13, is the number of item keys listed |
| ItemBodies.CreateRequiresAllKeys | API/class/transactions/CreateItemTransaction.php:76-140 | the corrected create threshold is the number of listed keys; the one as written is not |
| ItemBodies.CreateKeysLeaveOut | API/class/transactions/CreateItemTransaction.php:47-112 | creation accepts neither `phone` nor `callForAppointment`, and its periods have no `periodId`, which updates do have |
| ItemBodies.FirstBadEntryRejected | API/class/transactions/ItemParsingTransaction.php:51-80 | the first bad body entry decides the error, whatever follows |
| ItemBodies.FirstBadEntryInLoop | API/class/transactions/ItemParsingTransaction.php:51-80 | the key loop stops at the first bad entry with its error |
| ItemBodies.CoverIffEnough | API/class/transactions/ItemParsingTransaction.php:84 | with distinct recognised keys, counting them against the number of listed keys is the same as checking every listed key is present |
| ItemBodies.ParseAccepts | API/class/transactions/ItemParsingTransaction.php:49-135 | a body with distinct keys is accepted exactly when it is valid; then every value is stored under its key, and the periods are the opening hours read, or none when the body has none |
| ItemBodies.MissingKeysReported | API/class/transactions/ItemParsingTransaction.php:84-179 | when every entry is good, a key is absent exactly when the error lists the absent keys |
| ItemBodies.NonListIndexRejected | API/class/transactions/ItemParsingTransaction.php:103-106 | a non-empty entry under a non-numeric index is a list-expected error |
| ItemBodies.EmptyEntrySkipsListCheck | API/class/transactions/ItemParsingTransaction.php:103-132 | an empty entry skips the index check, whatever its index, and is reported as missing every period key |
| ItemBodies.CreateAsWrittenAcceptsIncomplete | API/class/transactions/CreateItemTransaction.php:76-78 | a creation body with ten good keys and one listed key absent is accepted as written, while the corrected completeness test reports the absent key |
| ItemBodies.CreateRequiresEveryKey | API/class/transactions/CreateItemTransaction.php:76-143 | the corrected creation check accepts only bodies holding every listed key |
| ItemTransactions.IntOf | API/class/transactions/CreateItemTransaction.php:186-190 | an hour or minutes argument is taken exactly when the sent value is a number, and is that number |
| ItemTransactions.DayOf | API/class/transactions/CreateItemTransaction.php:185-188 | a day argument is taken exactly when the sent value is a day code, and is that day; otherwise the day parser's error |
| ItemTransactions.Draft | API/class/transactions/CreateItemTransaction.php:184-192 | a new period is made exactly when the entry's days are known and its hours and minutes are in range; a usable entry out of range is refused as an invalid value in the body, the gateway's report of the database trigger; a period made carries the entry's values with the given period id and item id, and is valid |
| ItemTransactions.DraftAll | API/class/transactions/CreateItemTransaction.php:183-193 | the periods of all entries are made exactly when every entry is usable and in range, one per entry |
| ItemTransactions.DraftAllContents | API/class/transactions/CreateItemTransaction.php:183-193 | the periods made carry their entries in order, with consecutive ids and the item's id |
| ItemTransactions.Insert | API/class/transactions/CreateItemTransaction.php:184 | inserting periods keeps the items and moves the next period id past the inserted ones |
| ItemTransactions.InsertKeys | API/class/transactions/CreateItemTransaction.php:184 | inserted periods take the next ids in order; stored periods are untouched |
| ItemTransactions.InsertSound | API/class/transactions/CreateItemTransaction.php:184 | inserting periods numbered from the next id keeps every period under its own id |
| ItemTransactions.AddDrafts | API/class/transactions/CreateItemTransaction.php:183-193 | the periods are added exactly when every entry is usable and in range, the store stays sound, the items are untouched and one period id is used per entry |
| ItemTransactions.AddDraftsKeeps | API/class/transactions/CreateItemTransaction.php:183-193 | adding periods keeps every stored period and adds exactly the new ids |
| ItemTransactions.AddDraftsAt | API/class/transactions/CreateItemTransaction.php:183-193 | the period under each new id is the one drafted from the matching entry |
| ItemTransactions.AddDraftsContents | API/class/transactions/CreateItemTransaction.php:183-193 | the new ids hold the entries' periods, in input order, all for the given item |
| ItemTransactions.ExecuteCreate | API/class/transactions/CreateItemTransaction.php:168-196 | creation succeeds exactly when every period entry is usable and in range; the item gets the next, unused id; the store stays sound and uses one period id per entry |
| ItemTransactions.ExecuteCreateKeeps | API/class/transactions/CreateItemTransaction.php:168-196 | creation keeps every stored period and adds only new ids |
| ItemTransactions.ExecuteCreateAt | API/class/transactions/CreateItemTransaction.php:183-193 | each new period id holds its entry's period, referencing the new item |
| ItemTransactions.ExecuteCreatePeriods | API/class/transactions/CreateItemTransaction.php:183-193 | exactly one period per parsed entry is created, in input order, all referencing the new item |
| ItemTransactions.CreateItem | API/class/transactions/CreateItemTransaction.php:45-196 | a body the corrected eleven-key creation check refuses gives that check's error; an accepted one is executed, and so fails when a period's hour or minutes are out of range |
| ItemTransactions.Lift | API/class/transactions/UpdateItemTransaction.php:101-105 | a setter's range error is passed on unchanged |
| ItemTransactions.UpdatePeriod | API/class/transactions/UpdateItemTransaction.php:96-114 | an id naming none of the item's periods is an invalid `periodId`; otherwise the update succeeds exactly when the values pass the setters, and only that period changes, taking the sent day, hour and minute values and keeping its ids |
| ItemTransactions.PeriodsOf | API/class/transactions/UpdateItemTransaction.php:48 | the item's periods are exactly the stored periods referencing it |
| ItemTransactions.Reconcile | API/class/transactions/UpdateItemTransaction.php:51-69 | the entry loop keeps the store sound and the item's periods present, and leaves the items untouched |
| ItemTransactions.AfterEntry | API/class/transactions/UpdateItemTransaction.php:52-68 | one accepted entry keeps the store sound and the item's periods present |
| ItemTransactions.ReconcileStep | API/class/transactions/UpdateItemTransaction.php:51-69 | an entry that is not accepted stops the loop with an error; an accepted one is applied and the loop goes on, recording the entry's id when it names one |
| ItemTransactions.ReconcileAccepts | API/class/transactions/UpdateItemTransaction.php:51-69 | the loop succeeds exactly when every entry is accepted: in range, and either `new` or the id of a period the item owns |
| ItemTransactions.NewEntries | API/class/transactions/UpdateItemTransaction.php:57-67 | the `new` entries are among the entries and are all `new` |
| ItemTransactions.AfterEntryFacts | API/class/transactions/UpdateItemTransaction.php:52-68 | an entry with an id rewrites only that period with its values and creates nothing; a `new` entry creates exactly one period for the item under the next id; other periods are untouched |
| ItemTransactions.ReconcileIds | API/class/transactions/UpdateItemTransaction.php:56 | the ids recorded are exactly those the entries name |
| ItemTransactions.ReconcileKeeps | API/class/transactions/UpdateItemTransaction.php:51-69 | periods no entry names are untouched, and no period changes item |
| ItemTransactions.ReconcileLast | API/class/transactions/UpdateItemTransaction.php:52-107 | a named period ends with the values of the last entry naming it, within range |
| ItemTransactions.ReconcileFresh | API/class/transactions/UpdateItemTransaction.php:57-67 | exactly one new period id is used per `new` entry |
| ItemTransactions.ReconcileNewAt | API/class/transactions/UpdateItemTransaction.php:57-67 | each new id holds the period of its `new` entry, for the item |
| ItemTransactions.ReconcileRejectsUnknown | API/class/transactions/UpdateItemTransaction.php:111-113 | the first entry naming an id the item does not own stops the update with an invalid `periodId` |
| ItemTransactions.RemoveUnreferenced | API/class/transactions/UpdateItemTransaction.php:71-76 | afterwards the item's periods not referenced are gone, every other period remains unchanged, and a sound store stays sound |
| ItemTransactions.ExecuteUpdate | API/class/transactions/UpdateItemTransaction.php:28-87 | an unknown item is an error; otherwise the update succeeds exactly when every entry is accepted, and keeps the store sound and the items unchanged |
| ItemTransactions.ExecuteUpdateStep | API/class/transactions/UpdateItemTransaction.php:51-76 | the update is the entry loop followed by the removal of the unreferenced periods |
| ItemTransactions.ExecuteUpdateKeys | API/class/transactions/UpdateItemTransaction.php:51-76 | after the update the stored periods are the other items' periods, the item's periods some entry names, and one new period per `new` entry |
| ItemTransactions.ExecuteUpdateKeepsOthers | API/class/transactions/UpdateItemTransaction.php:48-75 | other items' periods are untouched |
| ItemTransactions.ExecuteUpdateLast | API/class/transactions/UpdateItemTransaction.php:52-107 | a period an entry names remains, with the values of the last entry naming it, its id and its item |
| ItemTransactions.ExecuteUpdateNewAt | API/class/transactions/UpdateItemTransaction.php:57-67 | each new id holds the period of its `new` entry, for the item |
| ItemTransactions.UpdateItem | API/class/transactions/UpdateItemTransaction.php:18-22 | a body the update check refuses gives that check's error; an accepted one updates the periods of the item the URL names |
| ClientPeriod.DayIndex | PWA/src/js/data/Period.js:5-146 | the position in the day list is -1 exactly for strings that are not day codes, and otherwise the position of that very code |
| ClientPeriod.DayIndexOfDayAt | PWA/src/js/data/Period.js:5 | each day's code is found at the day's own position |
| ClientPeriod.DayIndexInjective | PWA/src/js/data/Period.js:5 | two strings found at the same position are the same code |
| ClientPeriod.NextDayOf | PWA/src/js/data/Period.js:236-243 | the next day exists exactly for a day code, is a day code one position further round the week, and an invalid day is an error naming it |
| ClientPeriod.NextDayInjective | PWA/src/js/data/Period.js:236-243 | different days have different next days |
| ClientPeriod.SundayWraps | PWA/src/js/data/Period.js:239 | the day after Sunday is Monday |
| ClientPeriod.DayName | PWA/src/js/data/Period.js:6-181 | a name exists exactly for a day code, and is one of the seven English names |
| ClientPeriod.DayNamesDistinct | PWA/src/js/data/Period.js:6-14 | two codes with the same name are the same code |
| ClientPeriod.MinuteOfWeekBounds | PWA/src/js/data/Period.js:134-149 | for a valid day and time the minute of the week lies in the week and reads back as that day, hour and minute |
| ClientPeriod.ContainsMinute | PWA/src/js/data/Period.js:122-126 | a period that does not wrap contains the minutes between its ends, both included; one that wraps round the week contains those up to its end or from its start |
| ClientPeriod.ContainsIsCyclic | PWA/src/js/data/Period.js:118-126 | both cases are one rule: the minute lies on the cyclic stretch from start to end |
| ClientPeriod.SameHoursEquivalence | PWA/src/js/data/Period.js:94-99 | having the same hours is reflexive, symmetric and transitive |
| ClientPeriod.PeriodNextDay | PWA/src/js/data/Period.js:191-199 | a period whose start time is not before its end time gives its end day; any other gives the day after its end day |
| ClientPeriod.PeriodNextDayFollowsEnd | PWA/src/js/data/Period.js:191-199 | for a valid period, the period's start time on its next day comes less than a day after the period ends |
| ClientPeriod.OverlapsAsWrittenReduces | PWA/src/js/data/Period.js:206-214 | as written, with `Math.mod` as the non-negative remainder and since `b` is the start again, the test only asks whether the two starts coincide or this start lies on the other period's stretch |
| ClientPeriod.CyclicOverlapComplete | PWA/src/js/data/Period.js:206-214 | two cyclic stretches sharing a minute pass the corrected test |
| ClientPeriod.OverlapsShareMinute | PWA/src/js/data/Period.js:206-214 | the corrected test holds exactly when the two periods share a minute of the week |
| ClientPeriod.OverlapsAsWrittenMisses | PWA/src/js/data/Period.js:207-208 | Monday 10:00-12:00 and Monday 11:00-13:00 share minutes, yet the test as written, with `Math.mod` as the non-negative remainder, says they do not overlap |
| ClientPeriod.FormatHour | PWA/src/js/data/Period.js:222-230 | an hour text has at least a digit and the two-letter suffix |
| ClientPeriod.FormatHourParts | PWA/src/js/data/Period.js:222-230 | the text is the hour (minus 12 past noon), then `:minutes` when minutes are not 0, then `pm` past noon and `am` otherwise |
| ClientPeriod.FormatHourRoundTrip | PWA/src/js/data/Period.js:222-230 | every valid hour and minute reads back from its text, so no two times share a text |
| ClientPeriod.FormatHourQuirks | PWA/src/js/data/Period.js:224-228 | noon reads `12am` and minutes are not padded (`1:5pm`) |
| ClientPeriod.FindNext | PWA/src/js/data/Period.js:266-278 | the scan finds the first remaining period with the same hours starting on the schedule's next day, and nothing exactly when there is none |
| ClientPeriod.Extend | PWA/src/js/data/Period.js:263-279 | extending a schedule absorbs a chain of same-hours periods each starting on the day after the previous one, keeps the rest, and stops when none continues it; the start period is kept |
| ClientPeriod.FindJoin | PWA/src/js/data/Period.js:283-290 | the scan finds the first earlier schedule with the same hours that starts on the new schedule's next day, and nothing exactly when there is none |
| ClientPeriod.Merge | PWA/src/js/data/Period.js:281-293 | without a join the schedule is appended; with one only that earlier schedule changes, taking the new start period and keeping its end and next days |
| ClientPeriod.MergeStarts | PWA/src/js/data/Period.js:281-293 | merging never invents a start period |
| ClientPeriod.Group | PWA/src/js/data/Period.js:257-294 | grouping succeeds when every end day is valid, gives at most one schedule per period, starts each schedule at one of the periods, and names each end day |
| ClientPeriod.GroupPeriods | PWA/src/js/data/Period.js:250-296 | grouping succeeds for periods with valid end days; there are never more schedules than periods; every schedule starts at one of the periods and names its end day |
| ClientItem.Order.Val | PWA/src/js/data/Item.js:33-38 | every order preference has a name of at least four letters |
| ClientItem.Order.Index | PWA/src/js/panel/ItemsPanel.js:112-114 | each preference has a place among the four names `first`, `second`, `third`, `rest` |
| ClientItem.OrderFor | PWA/src/js/data/Item.js:108-111 | a known preference name is kept as that preference; any other string becomes `rest` |
| ClientItem.OrderForVal | PWA/src/js/data/Item.js:108-111 | normalising a preference's own name gives that preference back |
| ClientItem.FromObject | PWA/src/js/data/Item.js:48-113 | an item built from a saved object has the object's preference normalised and the object's periods, one for one |
| ClientItem.ToObject | PWA/src/js/data/Item.js:119-137 | the saved object records the preference by its name |
| ClientItem.FromObjectToObject | PWA/src/js/data/Item.js:48-137 | saving an item and building it again gives the same item |
| ClientItem.ToObjectFromObject | PWA/src/js/data/Item.js:48-137 | building an item from an object and saving it gives the object back exactly when the object's preference is a known name |
| ClientItem.IsOpenNow | PWA/src/js/data/Item.js:153-167 | an item by appointment is never open; any other item is open exactly when one of its periods contains the given minute of the week |
| LegacyPeriod.FromObject | PWA/src/js/Period.js:35-43 | the older period built from the newer one's fields reads back as that newer period |
| LegacyPeriod.HasSameHoursAs | PWA/src/js/Period.js:50-55 | two periods have the same hours exactly when the newer class says they do: same start and end hour and minutes, whatever the days |
| LegacyPeriod.FormatHour | PWA/src/js/Period.js:94-102 | the older hour text is the newer one's, and for a valid hour and minute reads back as them |
| LegacyPeriod.StartDayStr | PWA/src/js/Period.js:77-79 | a day name exists exactly for a day code, and no other code has that name |
| LegacyPeriod.EndDayStr | PWA/src/js/Period.js:85-87 | the end day is named exactly as a start day with that code would be |
| LegacyPeriod.NamesDistinct | PWA/src/js/Period.js:7-15 | two codes with the same day name are the same code |
| ItemsPanel.RanksAfterIsKeyLess | PWA/src/js/panel/ItemsPanel.js:115-124 | the loop stops before an item exactly when that item comes later in the listing order: preference, then free items first, then id |
| ItemsPanel.InsertPos | PWA/src/js/panel/ItemsPanel.js:111-126 | the insertion point is after every item that does not rank after the new one and before the first one that does |
| ItemsPanel.AddToItems | PWA/src/js/panel/ItemsPanel.js:111-127 | the list grows by the item alone, at the insertion point; removing it there gives the old list, and a sorted list stays sorted |
| ItemsPanel.AddToItemsStable | PWA/src/js/panel/ItemsPanel.js:111-127 | no item before the new one ranks after it |
| ItemsPanel.InsertKeepsSorted | PWA/src/js/panel/ItemsPanel.js:111-127 | inserting at a point with no later-ranked item before it and a later-ranked one after it keeps a sorted list sorted |
| ItemsPanel.ItemUpdated | PWA/src/js/panel/ItemsPanel.js:91-102 | an answer for another item leaves the list as it is; otherwise the old entry is replaced by the new item, in order, while it stays in the category shown, and just removed when it moved to another |
| ItemsPanel.RemoveKeepsSorted | PWA/src/js/panel/ItemsPanel.js:95-98 | removing an entry keeps a sorted list sorted |
| ItemsPanel.FirstOverlap | PWA/src/js/panel/ItemsPanel.js:259-267 | no pair is found exactly when no two periods overlap; a pair found overlaps, in order, and is the first such pair in the loops' order |
| ItemsPanel.EditedPeriodsOn | PWA/src/js/panel/ItemsPanel.js:269-276 | as many periods as were edited; each one that has a stored counterpart at its position takes that period's id, the rest keep theirs |
| ItemsPanel.OrderMarkerText | PWA/src/js/panel/ItemsPanel.js:442-449 | the three ranked preferences get their ordinal marks and anything else reads `Any` |
| ItemsPanel.Pad | PWA/src/js/panel/ItemsPanel.js:584-587 | a number below one hundred is written with exactly two digits that read back as it |
| ItemsPanel.TimeValueRoundTrip | PWA/src/js/panel/ItemsPanel.js:293-297 | the time written into the edit field reads back as the same hour and minutes |
| ApiAjaxAdapter.CleanBaseUrl | PWA/src/js/api/ApiAjaxAdapter.js:226-233 | the trimmed base URL, with one `/` added exactly when it is neither empty nor already ends in `/`; a non-empty result always ends in `/` |
| ApiAjaxAdapter.CleanBaseUrlIdempotent | PWA/src/js/api/ApiAjaxAdapter.js:226-233 | cleaning a cleaned base URL changes nothing |
| ApiAjaxAdapter.CleanRelativeUrl | PWA/src/js/api/ApiAjaxAdapter.js:241-247 | the trimmed relative URL with every leading `/` removed and nothing else: what was cut is all slashes and what is left does not start with one |
| ApiAjaxAdapter.CleanRelativeUrlKeeps | PWA/src/js/api/ApiAjaxAdapter.js:241-247 | a relative URL with no surrounding blanks and no leading `/` is kept as it is |
| ApiAjaxAdapter.Lookup | PWA/src/js/api/ApiAjaxAdapter.js:207 | a property is found exactly when the object has that key |
| ApiAjaxAdapter.Put | PWA/src/js/api/ApiAjaxAdapter.js:54-57 | after setting a property it holds the new value; an existing key keeps its place and the order of keys, a new key is added last (insertion order, as for the non-integer keys the program uses) |
| ApiAjaxAdapter.PutLookup | PWA/src/js/api/ApiAjaxAdapter.js:54-57 | setting one property leaves every other property's value as it was |
| ApiAjaxAdapter.PutKeepsUnique | PWA/src/js/api/ApiAjaxAdapter.js:54-57 | an object with distinct keys still has distinct keys after a property is set |
| ApiAjaxAdapter.Assign | PWA/src/js/api/ApiAjaxAdapter.js:207 | merging keeps the target's keys first and in order (for non-integer keys), adds at least what was there, and keeps keys distinct |
| ApiAjaxAdapter.AssignLookup | PWA/src/js/api/ApiAjaxAdapter.js:207 | after merging, a key of the source has the source's value and any other key the target's |
| ApiAjaxAdapter.SharedParamsWin | PWA/src/js/api/ApiAjaxAdapter.js:207 | in the query, a key both the call and the shared parameters hold takes the shared value; a key only the call holds keeps the call's value |
| ApiAjaxAdapter.Pairs | PWA/src/js/api/ApiAjaxAdapter.js:210-216 | one encoded `key=value` piece per property, in order |
| ApiAjaxAdapter.ParsePairsOf | PWA/src/js/api/ApiAjaxAdapter.js:210-216 | the encoded pieces decode back to the same properties in the same order |
| ApiAjaxAdapter.PairParses | PWA/src/js/api/ApiAjaxAdapter.js:214 | a piece splits at its one `=` into the encoded key and value, which decode back to them |
| ApiAjaxAdapter.UrlParamsRoundTrip | PWA/src/js/api/ApiAjaxAdapter.js:206-218 | the query string reads back as the call's parameters merged with the shared ones |
| ApiAjaxAdapter.QueryRoundTrip | PWA/src/js/api/ApiAjaxAdapter.js:208-217 | pieces joined with `&` read back as the properties they were made from |
| ApiAjaxAdapter.PairsHaveNoAmpersand | PWA/src/js/api/ApiAjaxAdapter.js:214 | no encoded piece holds an `&`, so the pieces can be told apart |
| ApiAjaxAdapter.NewAdapter | PWA/src/js/api/ApiAjaxAdapter.js:24-59 | a new adapter has the cleaned base URL, no header and no request running; it asks for JSON output, and for no caching exactly when told to |
| ApiAjaxAdapter.DefaultShared | PWA/src/js/api/ApiAjaxAdapter.js:54-58 | the shared parameters ask for JSON output and hold `no_cache` exactly when asked, with distinct keys |
| ApiAjaxAdapter.SetAuthorisation | PWA/src/js/api/ApiAjaxAdapter.js:78-94 | Basic sets the header to `Basic` and the encoded `user:password`, Bearer to `Bearer` and the token, each with the given once-only flag; any other method changes nothing |
| ApiAjaxAdapter.CancelAuthorisation | PWA/src/js/api/ApiAjaxAdapter.js:99-102 | the header and the once-only flag are cleared and nothing else changes |
| ApiAjaxAdapter.Issue | PWA/src/js/api/ApiAjaxAdapter.js:177-181 | issuing a request adds it, fresh, to the running ones; a once-only header is dropped, any other kept, and nothing else changes |
| ApiAjaxAdapter.Request | PWA/src/js/api/ApiAjaxAdapter.js:165-186 | the request goes to base URL, cleaned relative URL, `?` and the merged query, with the given method and body and the header in force before it |
| ApiAjaxAdapter.Finished | PWA/src/js/api/ApiAjaxAdapter.js:193-198 | a finished request is no longer running, every other one keeps its state, and finishing an unknown request changes nothing |
| ApiAjaxAdapter.IndexOfId | PWA/src/js/api/ApiAjaxAdapter.js:194 | the position of a running request, none exactly when it is not running |
| ApiAjaxAdapter.AbortAll | PWA/src/js/api/ApiAjaxAdapter.js:64-69 | every running request is aborted, the last issued first, and none is left running |
| ApiAjaxAdapter.HeadersOfRequest | PWA/src/js/api/ApiAjaxAdapter.js:165-186 | the header of a series of requests is the first request's followed by those of the rest, sent from the state it leaves |
| ApiAjaxAdapter.JustOnceHeader | PWA/src/js/api/ApiAjaxAdapter.js:92-93 | a header set once-only goes with the next request and with none after it |
| ApiAjaxAdapter.NoHeaderStays | PWA/src/js/api/ApiAjaxAdapter.js:177-179 | with no header, no later request carries one |
| ApiAjaxAdapter.LastingHeader | PWA/src/js/api/ApiAjaxAdapter.js:177-179 | a header not set once-only goes with every later request |
| ApiAjaxAdapter.RunningUntilFinished | PWA/src/js/api/ApiAjaxAdapter.js:174-196 | a request runs from when it is sent until its own answer arrives; another request finishing does not end it |
| ApiAjaxAdapter.NoDoubleSlash | PWA/src/js/api/ApiAjaxAdapter.js:167 | the URL starts with the cleaned base URL and, where that ends in `/`, the next character is not another `/` |
| LegacyAjaxAdapter.Others | PWA/src/js/ApiAjaxAdapter.js:104-108 | the parameters other than `out`, each one of the call's and all of them |
| LegacyAjaxAdapter.UrlParamsRoundTrip | PWA/src/js/ApiAjaxAdapter.js:101-110 | the query string, with the pieces joined by `&`, reads back as `out=json` followed by the call's other parameters |
| LegacyAjaxAdapter.UrlParamsStartsWithOut | PWA/src/js/ApiAjaxAdapter.js:103 | the query always starts with `out=json` |
| LegacyAjaxAdapter.UrlParamsAsWrittenLosesParams | PWA/src/js/ApiAjaxAdapter.js:101-110 | as written, with any parameter besides `out`, the query holds no `&` and does not read back as the parameters sent |
| LegacyAjaxAdapter.NewLegacy | PWA/src/js/ApiAjaxAdapter.js:12-16 | a new adapter has the cleaned base URL and no callback waiting |
| LegacyAjaxAdapter.Get | PWA/src/js/ApiAjaxAdapter.js:31-46 | with no callback nothing is sent; otherwise the callback waits, the request goes to the cleaned URL with the query string `_urlParams` builds as written, and a request already waiting is aborted exactly when there is one |
| LegacyAjaxAdapter.UrlParamsAgreeWithoutOthers | PWA/src/js/ApiAjaxAdapter.js:101-110 | with no parameter besides `out`, the query string as written is the intended `out=json` |
| LegacyAjaxAdapter.Finish | PWA/src/js/ApiAjaxAdapter.js:70-87 | a waiting callback hears 200 with the body and 204 with none; 0 means unreachable and any other status is an API error; afterwards no callback waits |
| LegacyAjaxAdapter.LatestCallbackWins | PWA/src/js/ApiAjaxAdapter.js:37-43 | a second request aborts the first, and the answer goes to the second callback |
| LegacyAjaxAdapter.CalledAtMostOnce | PWA/src/js/ApiAjaxAdapter.js:85-86 | a callback is called at most once: a second answer calls nothing |
| ApiService.TokenKeyIsTokenParam | PWA/src/js/api/ApiService.js:28 | the query parameter the web app sends the token in is `token`, the value the model assumes for the API's undeclared `TOKEN_PARAM` |
| ApiService.CategoriesUrlRoundTrip | PWA/src/js/api/ApiService.js:273-276 | the categories URL has the segments `item-types`, the encoded type, `categories` and an empty one, and the type decodes back from its segment |
| ApiService.ItemsInCategoryUrlRoundTrip | PWA/src/js/api/ApiService.js:282-285 | the items URL has the segments `categories`, the encoded code, `items` and an empty one, and the code decodes back from its segment |
| ApiService.SingleItemUrlPlain | PWA/src/js/api/ApiService.js:298-309 | an item's URL is `items` and the id's digits, its icon URL the same followed by `icon` |
| ApiService.LastWithCode | PWA/src/js/api/ApiService.js:57-59 | the last category with a code, none exactly when no category has it |
| ApiService.ByCode | PWA/src/js/api/ApiService.js:55-62 | the map holds exactly the non-empty codes of the list, each bound to the last category with that code |
| ApiService.CategoriesSuccess | PWA/src/js/api/ApiService.js:54-64 | no answer gives an empty map; every entry is under its own non-empty code, and every category with a code is reachable by it |
| ApiService.CategoryFoundByCode | PWA/src/js/api/ApiService.js:54-64 | a category whose code no other category shares is the one found under that code |
| ApiService.ItemsSuccess | PWA/src/js/api/ApiService.js:88-91 | `null` gives no items; otherwise one item per object, in order, with the object's id |
| ApiService.ItemsSuccessRoundTrip | PWA/src/js/api/ApiService.js:88-91 | items saved as objects and read back are the same items |
| ApiService.ErrorMessage | PWA/src/js/api/ApiService.js:265 | the error text of the answer when it has a non-empty one, the fixed unknown-error text otherwise; never empty |
| ApiService.ErrorHandling | PWA/src/js/api/ApiService.js:261-267 | an error callback, when there is one, and only then, hears the status and a non-empty message |
| ApiService.BodyOf | PWA/src/js/api/ApiService.js:117-118 | the body sent for an item is its saved object without the id: adding the id back gives the whole object |
| ApiService.BodyOfLosesOnlyId | PWA/src/js/api/ApiService.js:117-118 | two items give the same body exactly when they differ at most in their id |
| ApiService.MethodOf | PWA/src/js/api/ApiService.js:39-239 | reads use GET, deleting and logging out DELETE, saving PUT, and changing an icon, creating and logging in POST |
| ApiService.PayloadOf | PWA/src/js/api/ApiService.js:39-239 | GET and DELETE calls carry no body; saving and creating carry the item's fields |
| ApiService.SaveItemTarget | PWA/src/js/api/ApiService.js:116-125 | saving an item is a PUT to `items/<id>` with the item's fields, which together with the id are its whole object |
| ApiService.Send | PWA/src/js/api/ApiService.js:39-239 | every call goes through the adapter with its own method, body and path, the shared query and the header in force |
| ApiService.WithToken | PWA/src/js/api/ApiService.js:26-29 | holding a token means a lasting Bearer header with it and the token among the shared query parameters; nothing else changes |
| ApiService.NewService | PWA/src/js/api/ApiService.js:19-30 | a new service talks to the API's base URL with no request running; with a token it sends it in the header and in the query, without one it sends no header |
| ApiService.StartLogin | PWA/src/js/api/ApiService.js:203-211 | logging in POSTs the credentials with a Basic header for them, and that header is gone for the next request |
| ApiService.LoginSuccess | PWA/src/js/api/ApiService.js:220-225 | after a login the token goes in the Bearer header and in the query |
| ApiService.LoggedInRequests | PWA/src/js/api/ApiService.js:203-225 | once logged in, every later request carries the Bearer header with the token |
| ApiService.Forget | PWA/src/js/api/ApiService.js:250 | forgetting a parameter removes it and adds nothing |
| ApiService.ForgetLookup | PWA/src/js/api/ApiService.js:250 | forgetting one parameter leaves every other one as it was |
| ApiService.ForgetKeepsUnique | PWA/src/js/api/ApiService.js:250 | forgetting a parameter keeps the keys distinct |
| ApiService.StartLogout | PWA/src/js/api/ApiService.js:233-239 | logging out is a DELETE sent with the header in force |
| ApiService.LogoutSuccessAsWritten | PWA/src/js/api/ApiService.js:247-252 | as written, logging out drops the header but leaves the token parameter holding the text `undefined` |
| ApiService.LogoutSuccess | PWA/src/js/api/ApiService.js:247-252 | logging out drops the header and the token parameter |
| ApiService.LogoutAsWrittenSendsToken | PWA/src/js/api/ApiService.js:250 | as written, every request after a logout presents the token `undefined`, which the API takes as a token to check |
| ApiService.LogoutLeavesNoToken | PWA/src/js/api/ApiService.js:247-252 | after the corrected logout the API finds no token in later requests |
| ApiService.DeleteItemSuccessAsWritten | PWA/src/js/api/ApiService.js:105 | as written, a successful delete never calls the caller's callback |
| ApiService.DeleteItemSuccess | PWA/src/js/api/ApiService.js:101-107 | a successful delete calls the caller's callback, once |
| ApiService.DeleteItemCallbackLost | PWA/src/js/api/ApiService.js:101-107 | the callback is called no time as written and exactly once as corrected |
| PanelApiService.NewPanel | PANEL/src/js/api/ApiService.js:15-32 | a new service has no callback waiting, no handler set, the API's base URL and id -1 |
| PanelApiService.Start | PANEL/src/js/api/ApiService.js:59-64 | a request stores the callback and the handler, gets the next id, and aborts the previous one exactly when one was waiting |
| PanelApiService.GetCategories | PANEL/src/js/api/ApiService.js:59-64 | asking for categories waits with the categories handler on the categories URL and returns the next id |
| PanelApiService.GetItems | PANEL/src/js/api/ApiService.js:93-98 | asking for items waits with the items handler on the items URL and returns the next id |
| PanelApiService.CancelIfAlive | PANEL/src/js/api/ApiService.js:38-42 | a request is cancelled exactly when it is the latest one; otherwise nothing changes |
| PanelApiService.Deliver | PANEL/src/js/api/ApiService.js:71-112 | a waiting callback, and only one, is called once and then forgotten, with categories from the categories handler and items from the items handler |
| PanelApiService.Finish | PANEL/src/js/api/ApiService.js:71-112 | a callback is only called for a success status while a handler waits, and is the caller's callback |
| PanelApiService.IdsIncrease | PANEL/src/js/api/ApiService.js:48-51 | successive requests get successive ids |
| PanelApiService.OnlyLatestCancels | PANEL/src/js/api/ApiService.js:38-51 | cancelling an older request does nothing; cancelling the latest stops it |
| PanelApiService.LatestCallerHearsBack | PANEL/src/js/api/ApiService.js:59-112 | of two requests in a row, the answer goes to the second caller, as items |
| PanelApiService.AnsweredOnce | PANEL/src/js/api/ApiService.js:72-74 | once a callback has been called, a further answer calls nobody |
| PanelApiService.CancelledCallsNobody | PANEL/src/js/api/ApiService.js:38-42 | a cancelled request's answer calls nobody |
| UriEncoding.Utf8 | PWA/src/js/api/ApiAjaxAdapter.js:214 | a character is one to four bytes |
| UriEncoding.Escape | PWA/src/js/api/ApiAjaxAdapter.js:214 | a byte is written as `%` and two hexadecimal digits whose value is that byte |
| UriEncoding.Encode | PWA/src/js/api/ApiAjaxAdapter.js:214 | the encoded text holds only unreserved characters, `%` and hexadecimal digits, and is never shorter than the original |
| UriEncoding.DecodeEncode | PWA/src/js/api/ApiAjaxAdapter.js:214 | decoding an encoded text gives the original back |
| UriEncoding.EncodeUnreserved | PWA/src/js/api/ApiService.js:274 | text of unreserved characters only is left as it is |
| UriEncoding.EncodeInjective | PWA/src/js/api/ApiService.js:274 | two texts with the same encoding are the same text |
| UriEncoding.EncodeHasNoSeparator | PWA/src/js/api/ApiService.js:273-285 | an encoded text holds none of `&`, `=`, `/`, `?`, `#`, `:` and `,`, so it stays one field of a path, a query or a hash |
| ResourcesProvider.ClearBaseUrl | PWA/src/js/ResourcesProvider.js:130-140 | a blank URL gives the empty string; any other ends in exactly one `/`, after the trimmed URL with its trailing slashes removed |
| ResourcesProvider.ClearBaseUrlIdempotent | PWA/src/js/ResourcesProvider.js:130-140 | clearing a cleared URL changes nothing |
| ResourcesProvider.ClearAgreesWithAdapter | PWA/src/js/ResourcesProvider.js:130-140 | for a URL that does not end in two slashes this cleaning agrees with the API adapter's |
| ResourcesProvider.GetBaseUrl | PWA/src/js/ResourcesProvider.js:60-69 | the first call stores the cleared configured URL, or the empty string when none is configured; later calls give the stored one |
| ResourcesProvider.BaseUrlReadOnce | PWA/src/js/ResourcesProvider.js:60-69 | once read, the base URL does not change whatever is configured later |
| ResourcesProvider.BaseUrlIsClear | PWA/src/js/ResourcesProvider.js:60-69 | the base URL given out is always a cleared one |
| ResourcesProvider.MainMenuIcon | PWA/src/js/ResourcesProvider.js:76-80 | a known menu identifier gives its icon, anything else the unknown icon |
| ResourcesProvider.MainMenuIconIdentifies | PWA/src/js/ResourcesProvider.js:43-50 | two identifiers with the same icon are both known or both unknown, and two known ones with the same icon are the same |
| ResourcesProvider.IconUrlRoundTrip | PWA/src/js/ResourcesProvider.js:81-121 | an icon URL reads back as its folder and its file name |
| ResourcesProvider.MainMenuIconUrlReadsBack | PWA/src/js/ResourcesProvider.js:76-82 | a menu icon URL is in the menu folder, named after the chosen icon |
| ResourcesProvider.CategoryIconUrlReadsBack | PWA/src/js/ResourcesProvider.js:89-91 | a category icon URL is in the categories folder, named after the category code |
| ResourcesProvider.CostAndLanguageShareFolder | PWA/src/js/ResourcesProvider.js:97-107 | a cost and a language of the same name have the same icon URL |
| ResourcesProvider.RemoveFirst | PWA/src/js/ResourcesProvider.js:119 | replacing the first space removes exactly one character when there is a space and nothing otherwise |
| ResourcesProvider.RemoveAll | PWA/src/js/ResourcesProvider.js:119 | removing every space leaves none and drops exactly as many characters as there were spaces |
| ResourcesProvider.RemoveFirstIsAllForOne | PWA/src/js/ResourcesProvider.js:119 | with at most one space, replacing the first is replacing them all |
| ResourcesProvider.ItemIconFile | PWA/src/js/ResourcesProvider.js:115-120 | the icon file named after the item has no space and is as long as the name without its spaces plus the four characters of `.jpg` |
| ResourcesProvider.ItemIconFileAsWrittenKeepsSpaces | PWA/src/js/ResourcesProvider.js:119 | as written, a name with at most one space gets the intended file name, and one with two or more keeps a space in it |
| ResourcesProvider.ItemIconUrl | PWA/src/js/ResourcesProvider.js:115-122 | an item with an icon path uses it in the items folder; one without uses the file named after it as written, with only the first space removed |
| ResourcesProvider.ItemIconUrlAsIntended | PWA/src/js/ResourcesProvider.js:115-122 | as intended, an item without an icon path uses the file named after it with every space removed |
| ResourcesProvider.ItemIconUrlReadsBack | PWA/src/js/ResourcesProvider.js:115-122 | the icon URL of an item without an icon path reads back as the items folder and the file named after it as written; it is the intended URL when the name has at most one space, and keeps a space in the file otherwise |
| ResourcesProvider.ItemIconUrlAsIntendedReadsBack | PWA/src/js/ResourcesProvider.js:115-122 | the intended icon URL reads back as the items folder and the space-free file named after the item |
| Utils.Entity | PWA/src/js/utils.js:9-16 | every entity starts with `&`, ends with `;` and has at least four characters |
| Utils.HtmlEscape | PWA/src/js/utils.js:8-18 | the escaped text is never shorter and holds no special character other than the `&` of its entities |
| Utils.EntityAt | PWA/src/js/utils.js:9-16 | an entity recognised at the start of a text is the entity of the character it stands for |
| Utils.HtmlEscapeRoundTrip | PWA/src/js/utils.js:8-18 | escaping loses nothing: the escaped text reads back as the original |
| Utils.HtmlEscapeKeepsPlain | PWA/src/js/utils.js:17 | text without special characters is left as it is |
| Utils.Sort | PWA/src/js/utils.js:28-29 | the sorted copy is in order and holds the same numbers, each as many times |
| Utils.SortedUnique | PWA/src/js/utils.js:28-32 | two sorted arrays with the same numbers are equal, so comparing sorted copies compares contents |
| Utils.SpliceNothing | PWA/src/js/utils.js:28-29 | `splice()` with no arguments gives an empty array |
| Utils.HasSameNumbersIsSameMultiset | PWA/src/js/utils.js:25-34 | the intended comparison holds exactly when both arrays hold the same numbers, each as many times |
| Utils.HasSameNumbersAsWrittenIsLength | PWA/src/js/utils.js:25-34 | as written, the comparison holds exactly when the lengths agree |
| Utils.HasSameNumbersAsWrittenAcceptsDifferent | PWA/src/js/utils.js:25-34 | as written, `[1]` and `[2]` compare as holding the same numbers, which the intended comparison denies |
| PageState.FromObjects | PWA/src/js/pages/ListPage.js:291 | the items rebuilt from saved objects, one for each, in order |
| PageState.FromObjectsToObjects | PWA/src/js/pages/ListPage.js:258-263 | items saved as objects and rebuilt are the same items |
| PageState.ItemIds | PWA/src/js/pages/MapPage.js:194-195 | the ids of the saved items, one for each, in order |
| ListPage.DaysTextReadsBack | PWA/src/js/pages/ListPage.js:178 | the days text is one day name when start and end agree and the two names around one `-` otherwise |
| ListPage.DayTextPlain | PWA/src/js/data/Period.js:7-15 | no day name, nor the text of a missing one, holds a `-` or a `<` |
| ListPage.PeriodLineHasOneBreak | PWA/src/js/pages/ListPage.js:176-181 | each line of opening hours holds exactly one `<`, that of its closing `<br>` |
| ListPage.Lines | PWA/src/js/pages/ListPage.js:175-182 | one line per schedule, in order |
| ListPage.PeriodsText | PWA/src/js/pages/ListPage.js:170-184 | an item without periods has an empty text, and the text is always produced when every period's end day is a day code |
| ListPage.PeriodsTextLineCount | PWA/src/js/pages/ListPage.js:170-184 | the text has one line per schedule, never more lines than the item has periods |
| ListPage.ShouldShowMapButton | PWA/src/js/pages/ListPage.js:254-256 | map buttons are shown exactly for categories whose type is not the link type |
| ListPage.GetState | PWA/src/js/pages/ListPage.js:258-268 | the state names the list page class and the category, holds the items as objects, and has the hash `itemType,code` |
| ListPage.FromState | PWA/src/js/pages/ListPage.js:287-292 | a state of another page class is refused; otherwise the page has the state's category and items |
| ListPage.StateRoundTrip | PWA/src/js/pages/ListPage.js:258-292 | a page restored from its own state is the same page |
| ListPage.ParseHash | PWA/src/js/pages/ListPage.js:270-275 | an accepted hash is two fields of letters, digits, `_` or `-` around a comma, and they are read from it |
| ListPage.ParseHashAccepts | PWA/src/js/pages/ListPage.js:272 | every hash of that shape is accepted and read back as its two fields |
| ListPage.HashRoundTrip | PWA/src/js/pages/ListPage.js:266-275 | a page whose category type and code are such fields is found again from its own hash |
| ListPage.Landing | PWA/src/js/pages/ListPage.js:276-278 | a page opens exactly when the answer has the hash's category, and it is that category's page |
| MapPage.GenerateState | PWA/src/js/pages/MapPage.js:135-148 | the state names the map page class and the category, holds the items as objects, and has the hash `itemType,code,X` with X the only item's id or `all` |
| MapPage.ParseHash | PWA/src/js/pages/MapPage.js:151-157 | an accepted hash is two fields and `all` or digits, comma-separated, and they are read from it |
| MapPage.ParseHashAccepts | PWA/src/js/pages/MapPage.js:153 | every hash of that shape is accepted and read back as its three fields |
| MapPage.HashRoundTrip | PWA/src/js/pages/MapPage.js:144-157 | a page whose category type and code are such fields and whose ids are not negative is found again from its own hash |
| MapPage.ParseIntField | PWA/src/js/pages/MapPage.js:157 | the third field gives a number exactly when it is not `all` |
| MapPage.FirstWithId | PWA/src/js/pages/MapPage.js:166-171 | the first item with the id, none exactly when no item has it |
| MapPage.Select | PWA/src/js/pages/MapPage.js:163-172 | `all` shows every item; an id shows one item, or every item when none has it |
| MapPage.SelectFromOwnHash | PWA/src/js/pages/MapPage.js:146-172 | following a page's own hash shows its one item again when the API still has it, and every item otherwise |
| MapPage.Landing | PWA/src/js/pages/MapPage.js:159-174 | a page opens exactly when the answer has the hash's category, with that category and the selected items |
| MapPage.FromState | PWA/src/js/pages/MapPage.js:188-203 | as intended: a state of another page class is refused; a new page has the state's category and items |
| MapPage.FromStateResets | PWA/src/js/pages/MapPage.js:192-200 | as intended, the map shown is reset exactly when it shows the same item ids as the state, each as many times |
| MapPage.FromStateAsWrittenResets | PWA/src/js/pages/MapPage.js:192-200 | as written, the map shown is reset exactly when it shows as many items as the state holds |
| MapPage.StateRoundTrip | PWA/src/js/pages/MapPage.js:126-203 | with no map shown a page is restored from its own state; with that page shown, its map is reset |
| MapPage.FromStateAsWrittenKeepsWrongMap | PWA/src/js/pages/MapPage.js:197 | as written, a map of one item is reset in place of opening the page of another single item |
| Router.IndexOfText | PWA/src/js/app/Router.js:99 | the first place the text occurs |
| Router.WithoutHashRemovesHash | PWA/src/js/app/Router.js:96-100 | cutting the hash from a URL that ends in it gives the URL before it |
| Router.WithoutHashKeepsUrl | PWA/src/js/app/Router.js:96-100 | with no hash the URL is kept whole |
| Router.ParseLocation | PWA/src/js/app/Router.js:113-120 | an accepted location is `#`, a class name without `:`, and optionally `:` and a state hash without line breaks |
| Router.ParseLocationAccepts | PWA/src/js/app/Router.js:113 | every location of that shape is accepted and read back as its parts |
| Router.Dispatch | PWA/src/js/app/Router.js:121-134 | an unknown class leaves the home page; the list and map pages open only for hashes they accept, with the fields read from them |
| Router.OnLocation | PWA/src/js/app/Router.js:110-139 | an empty or malformed location leaves the home page |
| Router.BareClassGetsUndefined | PWA/src/js/app/Router.js:118-119 | as written, a location with no state hash hands the page the text `undefined` instead of no hash |
| Router.BareClassHarmlessForListAndMap | PWA/src/js/app/Router.js:125-130 | for the list and map pages that text and no hash both leave the home page |
| Router.BareClassVisibleElsewhere | PWA/src/js/app/Router.js:122-133 | for the categories grid and emergency pages the text `undefined` is not the same as no hash |
| Router.UrlForRoundTrip | PWA/src/js/app/Router.js:90-139 | a state's URL leads back to the page of that state's class and hash |
| Router.ListUrlRoundTrip | PWA/src/js/app/Router.js:90-139 | a list page's URL leads back to the list of its category |
| Router.MapUrlRoundTrip | PWA/src/js/app/Router.js:90-139 | a map page's URL leads back to the map of its category and items |
| Router.OnStatePopping | PWA/src/js/app/Router.js:54-82 | as written: with no saved state the location decides, by `_onLocation` as written; with one, the page class decides, and only a missing category makes it fail |
| Router.OnStatePoppingAsIntended | PWA/src/js/app/Router.js:54-82 | the same, with the intended `_onLocation` and the map page's intended comparison of item ids |
| Router.PoppingAsWrittenDiffersOnlyOnShownMaps | PWA/src/js/app/Router.js:64-66 | a saved state leads to the same place under both readings unless it is a map page's and a map is shown |
| Router.UnknownClassGoesHome | PWA/src/js/app/Router.js:70-72 | a saved state of no known class opens the home page |
| Router.PoppingOwnStates | PWA/src/js/app/Router.js:54-82 | going back to a list or map page's own state opens that page again, or resets the map when that map is shown, under both readings |
| MapPage.SelectAsWrittenIsSelect | PWA/src/js/pages/MapPage.js:157-172 | the search that runs even for `all` (the parsed number is never the text `all`) shows exactly what the intended selection shows |

## Left out

- Database gateways, SQL and the gateway factory. The transactions work on an abstract `Store`: a set of item ids, a map of periods by id, and the next ids to hand out. A failed transaction leaves the store unchanged, so the rollback needs no separate model.
- Password hashing, token generation and token expiry: these use cryptography, randomness and the wall clock. Whether a token is accepted (stored and unexpired) is the parameter `check` of `RequireToken`.
- PCRE matching. Each regular expression the code uses (URL patterns, parameter classes, the `Basic` and `Bearer` headers, the router's hash) is stated as a predicate on strings, or as a direct parser for that language.
- `encodeURI`, `decodeURI`, `btoa` and `base64_decode` are function parameters. `encodeURIComponent` is modelled concretely, over UTF-8 with upper-case hex.
- JSON decoding and encoding, and the HTTP headers of the outputters. The body arrives as a `Json` tree.
- JSON numbers are integers in the model. PHP's coercion of numeric strings and floats where an hour or minute is expected is not modelled: a value that is not a JSON integer is refused.
- `JsonBodyParser.php`, `JsonOutputter.php` and `FormatsFactory.php` are not part of this model. `ControllerFacade` is modelled only for the choice of the input and output format names; its `processRequest` has an empty body.
- The item key `ITEM_LANGUAGE_CODE` that the body parsers and `Item::toMap` read is not declared by `IApiInterface`, which has only `ITEM_LANGUAGE_CODES`. As written, each use (`ItemParsingTransaction.php:74` and `:174`, `CreateItemTransaction.php:66` and `:138`, `Item.php:82`) stops the request with an undefined-constant error, so every create and update body fails before it is read. `ItemBodies` models the program with the constant declared, as its own key `languageCode`. Body keys are strings only, and the loose `==` on the category code key is modelled as string equality.
- ItemBodies.Parse: states the parser with the language key declared. As written, the undefined constant fails first, for every body.
- ItemBodies.CreateAsWrittenAcceptsIncomplete: shows the ten-key threshold of the program with the language key declared. As written, the undefined constant at `CreateItemTransaction.php:66` fails before the threshold at line 76 is reached.
- SessionManager.GetToken: `IApiInterface` declares no `TOKEN_PARAM`. As written, a request without a non-empty Authorization header stops at `SessionManager.php:82` with an undefined-constant error. The model states `getToken` with the constant declared as `token`; the as-written function is `GetTokenUndeclared`.
- SessionManager.ParamTokenVerbatim: the query-token path exists only with `TOKEN_PARAM` declared, assumed to be `token`. As written, this path is the undefined-constant error.
- SessionManager.NoTokenAnywhere: with `TOKEN_PARAM` declared, no token and no error. As written, the same request fails on the undeclared constant (`GetTokenUndeclared`).
- SessionManager.RequireToken: stated with `TOKEN_PARAM` declared. As written, a request with no header and no cached token fails on the constant before the Bearer challenge (`RequireTokenUndeclared`).
- SessionManager.CredentialsOrder: `IApiInterface` declares neither `SESSION_USER` nor `SESSION_PASSWORD`. The body branch is stated with them declared as `user` and `password`. As written, reaching it (`SessionManager.php:108-110`) is an undefined-constant error, never the body pair or two nulls (`GetUserAndPasswordUndeclared`).
- ApiService.TokenKeyIsTokenParam: the client's `token` parameter matches the server only under the model's assumed value of the undeclared `TOKEN_PARAM`. As written, the server never reads a token from the query.
- ItemTransactions.CreateItem: parses with the corrected eleven-key check, where `CreateItemTransaction.php:76` accepts ten keys. So a body missing only one key, `webLink` say, is refused by the model and accepted by the program with the language key declared. The program's threshold is in `CreateAsWrittenAcceptsIncomplete`.
- Updating an item's own fields: `Item.php` has no setters, and the `PUT` route is commented out of the route table. As written, `execute` stops at `$item->setName` (`UpdateItemTransaction.php:33`) before any period is touched. The reconciliation of the item's periods is modelled as the program with those setters present.
- `ChangeItemIconTransaction.php`, `check_item_icons.php` and the exception classes. Errors are tags of `Result` values.
- Floating point: item coordinates, `canBeShownInMap`, and the map page's filter on coordinates.
- The clock and the UTC shift in `containsTime`. The minute of the week is given as an integer.
- DOM rendering, XHR, Google Maps, geolocation, scroll positions, and the navigation done by `App`. The router and the pages return which page to load, or which state to restore, as a value.
- The categories grid page and the emergency page are modelled only as dispatch targets of the router, under their class names.
- The base URL that `ResourcesProvider` keeps in a global is a parameter.
- The panel's own AJAX adapter file is not part of this model. The panel's service is modelled over the single-callback adapter of the web app.
- `toLowerCase` and `toUpperCase` are modelled on ASCII letters only. Other characters are left unchanged.
- JavaScript's default `sort` compares numbers as strings. The model sorts numerically, because only the multiset of the sorted copy matters.
- The panel's `parseInt` of the edit fields is modelled only on well-formed `HH:MM` text.
- The `in` operator's lookup through the prototype chain. Objects are finite maps.
- `Math.mod` (`data/Period.js:213`) is defined in none of the files modelled. It is taken to be the non-negative remainder `((x % m) + m) % m`. With JavaScript's truncating `%` instead, the second disjunct of the overlap test would hold for the example in the findings. If `Math.mod` is undefined, `overlaps` throws a `TypeError`.
- UrlPatterns.Match: the request's query is merged with the captures as a map override. PHP's `array_merge` (`UrlPattern.php:81`) renumbers the entries whose keys are digit-only, in the query and among the captures, so the override is exact only when no key is a decimal integer.
- UrlPatterns.MatchCaptures: the same `array_merge` limit. A parameter named with digits only is appended under a new number rather than stored under its name.
- ItemsPanel.ItemUpdated: its precondition that the slot index is inside the list is not checked by `_itemUpdated` (`ItemsPanel.js:91-92`). If the list is reloaded to a shorter one while a save is in flight, the source throws a `TypeError`; the model leaves that case out.
- Database triggers on periods: their ranges are taken to be those of `Period.php`, 0 to 23 for hours and 0 to 59 for minutes, because the schema is not part of this model.
- MapPage.FromState: states `fromState` as intended, with the item ids compared as multisets. The comparison as written looks only at lengths, and is in `FromStateAsWritten` and `FromStateAsWrittenResets`.
- MapPage.FromStateResets: the reset condition as intended. As written, the map is reset whenever the lengths agree (`FromStateAsWrittenResets`).
- ClientPeriod.FormatHour: its contract states only a lower bound on the length. The full shape of the text is in `FormatHourParts`, and the read-back is in `FormatHourRoundTrip`.
- UrlPatterns.PregQuote: its contract states only that the text does not get shorter. What it means is in `UnquotePregQuote`, which undoes the quoting.
- SessionManager.GetUserAndPassword: its contract states only that a result is never an empty list. Which header wins, and how it is split, is in the lemmas that follow it.
- SessionManager.GetUserAndPasswordAsWritten: the same as `GetUserAndPassword`, for the hex-only capture.

## Findings

| source | as written | input that shows it | evidently intended | confidence | as-written member | corrected member |
|---|---|---|---|---|---|---|
| API/class/transactions/CreateItemTransaction.php:76 | a body is complete when it used at least 10 keys, though an item has 11; this is reached only once the undefined language constant at line 66 is declared | a body with every key but the web link | every item key must be present | not executed | ItemBodies.CreateAsWrittenAcceptsIncomplete | ItemBodies.CreateRequiresEveryKey |
| PWA/src/js/data/Period.js:207-212 | `b` is the period's start minute, the same as `a`; the modulus 11519 is larger than the 10080 minutes of a week (`Math.mod` read as the non-negative remainder, as no modelled file defines it) | Mon 10:00-12:00 against Mon 11:00-13:00 | `b` is the period's end minute | not executed | ClientPeriod.OverlapsAsWrittenMisses | ClientPeriod.OverlapsShareMinute |
| API/class/SessionManager.php:104 | the Basic credentials are captured with the class `[0-9A-Fa-f=]`, hex digits only | `Basic dXNlcjpwdw==` captures only `d` | the whole base64 text is captured | not executed | SessionManager.BasicCredentialsAsWritten | SessionManager.BasicSplit |
| PWA/src/js/ApiAjaxAdapter.js:101-110 | the query string adds each pair with no `&` before it | the parameters `a=1` and `b=2` give `out=jsona=1b=2` | the pairs are separated by `&` | not executed | LegacyAjaxAdapter.UrlParamsAsWrittenLosesParams | LegacyAjaxAdapter.UrlParamsRoundTrip |
| PWA/src/js/api/ApiService.js:250 | logging out stores `undefined` as the shared token, and it is sent as the text `undefined` | any request after a logout | no token is sent after a logout | not executed | ApiService.LogoutAsWrittenSendsToken | ApiService.LogoutLeavesNoToken |
| PWA/src/js/api/ApiService.js:105 | the success handler `(...x)=> callback` returns the callback without calling it | any successful deletion | the callback is called on success | not executed | ApiService.DeleteItemCallbackLost | ApiService.DeleteItemSuccess |
| PWA/src/js/ResourcesProvider.js:119 | `replace(" ", "")` removes only the first space | an item named `a b c` gets the icon `ab c.jpg` | every space is removed | not executed | ResourcesProvider.ItemIconFileAsWrittenKeepsSpaces | ResourcesProvider.ItemIconFile |
| PWA/src/js/utils.js:28-29 | `splice()` with no arguments returns an empty array, so only the lengths are compared | `[1]` against `[2]` | the sorted copies are compared | not executed | Utils.HasSameNumbersAsWrittenAcceptsDifferent | Utils.HasSameNumbersIsSameMultiset |
| PWA/src/js/app/Router.js:118-119 | the match array always has four entries, so a hash with no `:` gives the state text `undefined` | `#ListPage` | no state hash when there is no `:` | not executed | Router.BareClassGetsUndefined | Router.OnLocation |
