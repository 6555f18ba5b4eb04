# Expose client request path, in Dafny

This project models the request path of the Expose tunnel client in three parts.

- **The magic-auth gate** (`CheckMagicAuthentication`). For each request that comes through the tunnel, the gate does one of two things:
  - it forwards the request unchanged;
  - or it answers the request itself with the login form, a rejection, or the 302 that sets a signed session cookie. It then logs the response by request id, sends it, and closes the proxy connection.
- **The share configuration** (`Configuration`). This holds the host and server host, the port, the magic-auth policy and its allow-list patterns, and the shared URL. It also holds the process-wide magic-auth secret that its constructor installs.
- **The request plugins** (`PluginManager` and `MagicLoginPlugin`). The manager does three jobs:
  - it discovers the default and custom plugin classes;
  - it filters the configured list of request plugins down to valid plugin classes;
  - it classifies a logged request by the first enabled plugin that matches it.

  `MagicLoginPlugin` recognises magic-login submissions.

The modules, one per file:

| file | module | what it holds |
|---|---|---|
| `wrappers.dfy` | `Wrappers` | `Option` and the `??` lookup |
| `php_strings.dfy` | `PhpStrings` | the PHP string built-ins the code uses; see below |
| `configuration.dfy` | `Config` | the `Configuration` class and the process-wide config store |
| `magic_auth.dfy` | `MagicAuth` | the gate |
| `plugins.dfy` | `Plugins` | plugin data, the plugin contract, and `MagicLoginPlugin` |
| `plugin_manager.dfy` | `PluginManagement` | the `PluginManager` class and its specification functions |

`PhpStrings` models these PHP built-ins:
- `trim`, `strtolower` and `strtoupper`;
- `explode`, including `explode` with a limit of 2;
- `str_contains`, `str_starts_with` and `str_ends_with`;
- `"{$n}"` and the `(int)` cast;
- PHP's truthiness of a string (`""` and `"0"` are falsy).

Code that updates state in place is imperative Dafny:
- `getCookieValue`, `isEmailAllowed` and `sendResponse`;
- the `Configuration` class;
- the plugin manager's loaders, `ensureValidPluginConfig` and `loadPluginData`.

Each such method is proved against a specification function. The properties the system promises are proved about those functions.

Some primitives are parameters rather than models: HMAC-SHA256 (RFC 2104), base64 (section 4 of RFC 4648), `filter_var` email validation, `parse_str` and the login-page template. They are fields of `MagicAuth.Primitives`. The lemmas that need base64 to round-trip or the HMAC to be hex text require `Lawful`. Three more inputs are also parameters:
- the clock `time()` is the parameter `now`;
- `Str::random(32)` is the constructor parameter `randomSecret`;
- PHP's class registry (after custom plugin files are loaded) is a `ClassTable`.

A plugin class is a `PluginBehaviour`: its `make`, `matchesRequest` and `getPluginData`, each of which may throw an `\Exception` or an `\Error`.

Three behaviours of the code that the model keeps as they are:
- **Enabled plugins.** `ensureValidPluginConfig` keeps every configured name that is a loaded `BasePlugin` subclass. It does not intersect the list with the discovered default and custom plugins.
- **Exceptions in `loadPluginData`.** Only `\Exception` is caught, and the loop moves on to the next plugin. That includes an `\Exception` from `getPluginData`, which gives no error data. An `\Error` escapes `loadPluginData`. `MagicLoginPlugin` catches every throwable itself.
- **Query in the redirect target.** The form's redirect target appends the query only when the query is truthy, so a query of `"0"` is dropped.

## Model

| member | source | states |
|---|---|---|
| `PhpStrings.TrimStripsOnlyEnds` | app/Configuration.php:88 | the result of `trim` is the infix of its input that is left after removing strippable characters from the front and from the back only; it starts and ends with a kept character |
| `PhpStrings.Trim` | app/Configuration.php:88 | the result has no strippable character at either end, and an already trimmed string is unchanged |
| `PhpStrings.TrimLower` | app/Http/Modifiers/CheckMagicAuthentication.php:96 | lower-casing and trimming commute, so a pattern's `strtolower(trim(...))` does not depend on the order |
| `PhpStrings.UpperOfLower` | app/Logger/Plugins/MagicLoginPlugin.php:18 | upper-casing ignores any earlier lower-casing, which makes the POST comparison case-blind |
| `PhpStrings.UpperMatchesIffLowerMatches` | app/Http/Modifiers/CheckMagicAuthentication.php:52 | `strtoupper(s)` equals an upper-case word exactly when `strtolower(s)` equals that word in lower case |
| `PhpStrings.Split` | app/Http/Modifiers/CheckMagicAuthentication.php:159 | `explode` gives at least one piece, and no piece contains the delimiter |
| `PhpStrings.SplitNoDelimiter` | app/Http/Modifiers/CheckMagicAuthentication.php:159 | text without the delimiter explodes to itself alone |
| `PhpStrings.SplitAppend` | app/Http/Modifiers/CheckMagicAuthentication.php:132 | exploding `a;b` gives the pieces of `a` followed by those of `b` |
| `PhpStrings.JoinSplit` | app/Http/Modifiers/CheckMagicAuthentication.php:159 | joining the pieces of `explode` with the delimiter gives back the text, so splitting loses nothing |
| `PhpStrings.SplitOnce` | app/Http/Modifiers/CheckMagicAuthentication.php:133 | `explode` with limit 2 fails exactly when the delimiter is absent; otherwise it cuts at the first delimiter, so the second part may contain more |
| `PhpStrings.DigitPrefix` | app/Http/Modifiers/CheckMagicAuthentication.php:174 | the digits the `(int)` cast reads: a prefix of the text, all digits, and followed by no further digit |
| `PhpStrings.PhpIntCast` | app/Http/Modifiers/CheckMagicAuthentication.php:174 | `(int)` of text without any digit is 0 |
| `PhpStrings.IntCastIgnoresTrailing` | app/Http/Modifiers/CheckMagicAuthentication.php:174 | `(int)` of a number's digits followed by text that does not start with a digit is that number: the text after the digits is ignored |
| `PhpStrings.IntCastRoundTrip` | app/Http/Modifiers/CheckMagicAuthentication.php:174 | `(int)` of an integer's decimal text gives back that integer, so a token's timestamp reads back as its issue time |
| `Config.KeepTruthyCounts` | app/Configuration.php:88 | `array_filter` keeps every truthy piece as many times as it occurs and drops every falsy one |
| `Config.KeepTruthySingle` | app/Configuration.php:88 | one piece is kept exactly when it is truthy; with `KeepTruthyAppend` this fixes the order of the kept pieces too |
| `Config.KeepTruthy` | app/Configuration.php:88 | every kept piece is truthy, and trimmed pieces stay trimmed |
| `Config.KeepTruthyAppend` | app/Configuration.php:88 | filtering a concatenation filters each part, in order |
| `Config.AllowedPatterns` | app/Configuration.php:82-89 | a null or empty policy gives no patterns; every pattern is truthy and has no leading or trailing whitespace |
| `Config.PatternsOfOnePiece` | app/Configuration.php:88 | a policy without commas gives its trimmed text as its one pattern, or none when that is `""` or `"0"` |
| `Config.PatternsOfJoin` | app/Configuration.php:88 | the patterns of `a,b` are those of `a` followed by those of `b`, so patterns keep the policy's order |
| `Config.PiecesAppend` | app/Configuration.php:88 | trimming and dropping falsy pieces distribute over concatenation of the piece lists |
| `Config.ConfigStore.constructor` | app/Configuration.php:48 | the store starts with the given magic-auth secret |
| `Config.Configuration.constructor` | app/Configuration.php:33-50 | every field is set from its argument, and both `host` and `serverHost` are the given host; a policy, even `""`, installs the fresh secret; no policy leaves the store alone |
| `Config.Configuration.SetServerHost` | app/Configuration.php:62-65 | only `serverHost` changes; `host` and every other field are kept |
| `Config.Configuration.SetIsSecureSharedUrl` | app/Configuration.php:118-121 | only the secure-URL flag changes |
| `Config.Configuration.GetAllowedMagicAuthPatterns` | app/Configuration.php:82-89 | no patterns for a null or empty policy; every pattern is non-empty, not `"0"`, and trimmed |
| `Config.Configuration.GetUrl` | app/Configuration.php:101-111 | the URL starts with `subdomain.serverHost`; nothing follows exactly when the port is 443; otherwise `:` follows, then the port's decimal text, whose `(int)` is the port |
| `MagicAuth.IsEmailAllowed` | app/Http/Modifiers/CheckMagicAuthentication.php:85-110 | the loop with early return decides `EmailAllowed`: an empty list admits everyone, and otherwise some pattern must admit the email |
| `MagicAuth.LoginSubmissionAnyCase` | app/Http/Modifiers/CheckMagicAuthentication.php:49-55 | a request is a login submission exactly when its path is the login path and its method is `post` in any case |
| `MagicAuth.GetRequestId` | app/Http/Modifiers/CheckMagicAuthentication.php:221-225 | the request id is the first value of the first header named `x-expose-request-id` in any case, and there is none when that header has no value or is missing |
| `MagicAuth.HeaderValuesIgnoringCase` | app/Http/Modifiers/CheckMagicAuthentication.php:223 | the values are those of the first header whose name equals the wanted one up to case; with no such header there are none |
| `MagicAuth.PatternAdmitsIgnoresCase` | app/Http/Modifiers/CheckMagicAuthentication.php:93-96 | whether a pattern admits an email does not depend on the case of the pattern or of the email |
| `MagicAuth.EmailAllowedIgnoresCase` | app/Http/Modifiers/CheckMagicAuthentication.php:93 | the allow-list decision does not depend on the email's case |
| `MagicAuth.TrimmedPatternAdmits` | app/Http/Modifiers/CheckMagicAuthentication.php:94-105 | a pattern without surrounding whitespace is a suffix rule when, lower-cased, it starts with `@`, and an exact, case-insensitive rule otherwise |
| `MagicAuth.DomainPatternAdmitsItsAddresses` | app/Http/Modifiers/CheckMagicAuthentication.php:98-100 | `@domain` admits every address at that domain |
| `MagicAuth.DomainPatternRejectsSubdomains` | app/Http/Modifiers/CheckMagicAuthentication.php:98-100 | `@domain` admits no address at a subdomain of that domain |
| `MagicAuth.AddressPatternIsExact` | app/Http/Modifiers/CheckMagicAuthentication.php:102-105 | a pattern not starting with `@` admits exactly the emails equal to it, ignoring case |
| `MagicAuth.JarLastWins` | app/Http/Modifiers/CheckMagicAuthentication.php:132-137 | the last segment that sets a cookie gives its value; earlier duplicates are overridden |
| `MagicAuth.JarLastSet` | app/Http/Modifiers/CheckMagicAuthentication.php:132-137 | a cookie set by the last segment has that segment's value, whatever came before |
| `MagicAuth.JarAbsent` | app/Http/Modifiers/CheckMagicAuthentication.php:139 | a cookie that no segment sets is absent |
| `MagicAuth.JarStep` | app/Http/Modifiers/CheckMagicAuthentication.php:132-137 | reading one more segment either leaves the cookies alone (no `=`) or sets the segment's trimmed name to its trimmed value |
| `MagicAuth.JarWitness` | app/Http/Modifiers/CheckMagicAuthentication.php:132-139 | a cookie that has a value got it from a segment that sets it, after which no segment sets it again |
| `MagicAuth.GetCookieValue` | app/Http/Modifiers/CheckMagicAuthentication.php:123-140 | the loop over the first `cookie` header's segments yields `CookieValue`: null for a falsy header, otherwise the last value set for the name |
| `MagicAuth.CookieValueOfLastSet` | app/Http/Modifiers/CheckMagicAuthentication.php:123-140 | the last segment of the header that sets a cookie gives that cookie its value, whatever the other segments hold |
| `MagicAuth.CookieValueHasLastSetting` | app/Http/Modifiers/CheckMagicAuthentication.php:123-140 | conversely, a cookie that has a value has it from the last segment that sets it |
| `MagicAuth.CookieValueOfUnset` | app/Http/Modifiers/CheckMagicAuthentication.php:123-140 | a cookie that no segment sets has no value |
| `MagicAuth.SettingHeaderIsTruthy` | app/Http/Modifiers/CheckMagicAuthentication.php:127-129 | a header with a segment that sets a cookie is truthy, so it is never skipped as empty |
| `MagicAuth.FalsyHeaderSetsNothing` | app/Http/Modifiers/CheckMagicAuthentication.php:127-135 | a falsy header, `""` or `"0"`, is a single segment that sets no cookie |
| `MagicAuth.PaddedSegmentParses` | app/Http/Modifiers/CheckMagicAuthentication.php:133-135 | a segment parses like its trimmed text, so spaces around a cookie change nothing |
| `MagicAuth.PlainSegmentParses` | app/Http/Modifiers/CheckMagicAuthentication.php:132-135 | `name=value` with both sides non-empty and trimmed and no `=` in the name parses back to that name and value, so the value may itself contain `=` |
| `MagicAuth.SessionSegmentParses` | app/Http/Modifiers/CheckMagicAuthentication.php:132-135 | the segment `expose_magic_auth=<token>` of a base64 token has no `;`, parses back to that name and token, and the token is truthy |
| `MagicAuth.LastPaddedSegment` | app/Http/Modifiers/CheckMagicAuthentication.php:132-133 | a trimmed segment without `;` written after `; ` is the header's last segment, with one space before it that trimming removes |
| `MagicAuth.SessionCookieRead` | app/Http/Modifiers/CheckMagicAuthentication.php:123-140 | the header stored as `cookie`, with a segment that, trimmed, is the session cookie, and no later segment setting `expose_magic_auth`, yields the token, which is truthy |
| `MagicAuth.BrowserSessionCookie` | app/Http/Modifiers/CheckMagicAuthentication.php:123-140 | a header that ends with `; expose_magic_auth=<token>` after any other cookies, as a browser sends it, yields the token |
| `MagicAuth.NoSessionCookieNoAccess` | app/Http/Modifiers/CheckMagicAuthentication.php:112-121 | a request none of whose cookie segments sets `expose_magic_auth` never has a valid session cookie |
| `MagicAuth.SessionTokenIsTruthy` | app/Http/Modifiers/CheckMagicAuthentication.php:116-148 | a freshly issued token is never empty or `"0"`, so the emptiness check never rejects it |
| `MagicAuth.GeneratedCookieParts` | app/Http/Modifiers/CheckMagicAuthentication.php:142-149 | a token issued for an email without a bar character decodes and splits into exactly the email, the decimal issue time and the HMAC of `email|time`, and the time casts back to the issue time |
| `MagicAuth.AcceptedCookieIsSigned` | app/Http/Modifiers/CheckMagicAuthentication.php:151-179 | only signed tokens validate: an accepted value decodes to `email|time|hmac(email|time)` with no bar in the email or the time, and the time is at most seven days old |
| `MagicAuth.CookieRoundTrip` | app/Http/Modifiers/CheckMagicAuthentication.php:142-179 | under one secret, a token issued for an email without a bar character validates exactly while `now - issuedAt <= 604800` |
| `MagicAuth.TamperedSignatureRejected` | app/Http/Modifiers/CheckMagicAuthentication.php:159-172 | a token whose signature field is anything but the HMAC is rejected |
| `MagicAuth.BarInEmailNeverValidates` | app/Http/Modifiers/CheckMagicAuthentication.php:159-163 | the token of an email containing a bar character splits into more than three fields and never validates |
| `MagicAuth.RedirectTarget` | app/Http/Modifiers/CheckMagicAuthentication.php:186-192 | the target starts with the given redirect URL, or else the path; it is followed by `?query` when the query is truthy, and by nothing otherwise |
| `MagicAuth.LoginForm` | app/Http/Modifiers/CheckMagicAuthentication.php:186-207 | the form is a 401 whose body is the rendered page for the error and the redirect target, with an HTML `Content-Type` and a `Content-Length` whose `(int)` is the body's length |
| `MagicAuth.MaxAgeIsSevenDays` | app/Http/Modifiers/CheckMagicAuthentication.php:77 | the cookie's `Max-Age` attribute reads `604800` |
| `MagicAuth.Handle` | app/Http/Modifiers/CheckMagicAuthentication.php:27-42 | without a policy or without a proxy connection the request passes unchanged; a login submission is always answered; a forwarded request is the original one |
| `MagicAuth.LoginSubmissionOutcome` | app/Http/Modifiers/CheckMagicAuthentication.php:57-83 | an invalid email gets a 401 form with "Please enter a valid email address."; a valid email not on the list gets a 401 with "This email address is not authorized to access this site."; an allowed email gets a 302 to `redirect_url` (default `/`) with the Set-Cookie of a fresh token |
| `MagicAuth.LoginRedirect` | app/Http/Modifiers/CheckMagicAuthentication.php:75-78 | the redirect is a 302 with an empty body whose `Location` is the redirect URL and whose `Set-Cookie` carries the token with `Path=/; Max-Age=604800; HttpOnly; SameSite=Lax` |
| `MagicAuth.HandleLoginFormSubmission` | app/Http/Modifiers/CheckMagicAuthentication.php:57-83 | a submission gets a 302 exactly when its email is valid and allowed, and a 401 otherwise; the 302 goes to the submitted redirect URL with the Set-Cookie of a token for that email |
| `MagicAuth.ChallengeOutcome` | app/Http/Modifiers/CheckMagicAuthentication.php:37-41 | any other request is forwarded exactly when it has a valid session cookie; otherwise it gets the error-free 401 form that points back at its own path |
| `MagicAuth.EmptyPolicyAdmitsEveryone` | app/Http/Modifiers/CheckMagicAuthentication.php:44-91 | the empty policy still requires the login step, and then admits every valid email with a 302 |
| `MagicAuth.LoginThenAccess` | app/Http/Modifiers/CheckMagicAuthentication.php:27-179 | a successful login sets the cookie; a later request whose header stored as `cookie` has that cookie as its last `expose_magic_auth` segment, anywhere among other cookies, is forwarded while the token is at most seven days old |
| `MagicAuth.ReturnWithSessionCookie` | app/Http/Modifiers/CheckMagicAuthentication.php:37-140 | a request whose last `expose_magic_auth` cookie segment carries a token issued for an email without a bar character is forwarded while the token is at most seven days old |
| `MagicAuth.ResponseEvents` | app/Http/Modifiers/CheckMagicAuthentication.php:209-225 | a synthesized response is logged by request id only when a truthy `x-expose-request-id` is present, then sent, then the connection is closed |
| `MagicAuth.RequestIdLogged` | app/Http/Modifiers/CheckMagicAuthentication.php:213-225 | when the first `x-expose-request-id` header, in any case, has a truthy first value, the response is logged under that value, then sent, then the connection is closed |
| `MagicAuth.Trace.constructor` | app/Http/Modifiers/CheckMagicAuthentication.php:209-219 | the effect record starts empty |
| `MagicAuth.SendResponse` | app/Http/Modifiers/CheckMagicAuthentication.php:209-219 | the effects are appended to the trace in the order of `ResponseEvents` |
| `MagicAuth.HandleRequest` | app/Http/Modifiers/CheckMagicAuthentication.php:27-42 | a forwarded request is returned and nothing is sent; an answered request returns null after its response's log, send and close effects |
| `Plugins.MagicLoginGetTitle` | app/Logger/Plugins/MagicLoginPlugin.php:7-10 | the title is "Magic Login" |
| `Plugins.MagicLoginData` | app/Logger/Plugins/MagicLoginPlugin.php:21-39 | see the notes after this table |
| `Plugins.MagicLoginBehaviour` | app/Logger/Plugins/MagicLoginPlugin.php:12-39 | none of the plugin's three calls throws: it always matches by `matchesRequest` and reports by `getPluginData` |
| `Plugins.MagicLoginMethodIgnoresCase` | app/Logger/Plugins/MagicLoginPlugin.php:12-19 | a request matches exactly when its URI contains the login path and its method is `post` in any case; lower-casing the method changes nothing |
| `Plugins.MagicLoginMatchesAnywhere` | app/Logger/Plugins/MagicLoginPlugin.php:12-19 | a POST whose URI contains the login path anywhere matches |
| `Plugins.PluginLooserThanGate` | app/Logger/Plugins/MagicLoginPlugin.php:12-19 | see the notes after this table |
| `PluginManagement.KeepValid` | app/Logger/Plugins/PluginManager.php:73-83 | every kept name is a loaded plugin class; a name is kept exactly when it is configured and valid |
| `PluginManagement.KeepValidIsSubsequence` | app/Logger/Plugins/PluginManager.php:77-82 | the filtered list is a subsequence of the configured list, so order is kept |
| `PluginManagement.KeepValidCounts` | app/Logger/Plugins/PluginManager.php:79-80 | every occurrence of a valid name is kept and every occurrence of an invalid one is removed |
| `PluginManagement.KeepValidAppend` | app/Logger/Plugins/PluginManager.php:77-82 | filtering a concatenation filters each part |
| `PluginManagement.Without` | app/Logger/Plugins/PluginManager.php:80 | the result holds exactly the names not dropped |
| `PluginManagement.ArrayDiff` | app/Logger/Plugins/PluginManager.php:80 | `array_diff` with one value removes every occurrence of that value, keeps every occurrence of every other value, and keeps their order |
| `PluginManagement.WithoutCounts` | app/Logger/Plugins/PluginManager.php:77-82 | removing names drops every occurrence of a removed name and keeps every occurrence of any other |
| `PluginManagement.WithoutIsSubsequence` | app/Logger/Plugins/PluginManager.php:77-82 | removing names keeps the rest in their order |
| `PluginManagement.WithoutTwice` | app/Logger/Plugins/PluginManager.php:77-82 | removing one more name after earlier removals is removing all those names at once |
| `PluginManagement.WithoutInvalid` | app/Logger/Plugins/PluginManager.php:77-82 | removing exactly the invalid names is filtering the list |
| `PluginManagement.FileNameWithoutExtension` | app/Logger/Plugins/PluginManager.php:103 | the `.php` extension, and only that, is removed |
| `PluginManagement.ClassNameOf` | app/Logger/Plugins/PluginManager.php:143 | the class name is in the plugin namespace, and for a `.php` file it is the namespace plus the file name without `.php` |
| `PluginManagement.SelectFiles` | app/Logger/Plugins/PluginManager.php:126-138 | a file is selected exactly when it is a `.php` name, not a dot file, and declares a loaded plugin class (and, for custom files, mentions BasePlugin) |
| `PluginManagement.SelectFilesCounts` | app/Logger/Plugins/PluginManager.php:126-138 | each discoverable file is selected as many times as it is listed, and no other file is |
| `PluginManagement.SelectFilesAppend` | app/Logger/Plugins/PluginManager.php:126-138 | selecting from two listings one after the other selects from each, in listing order |
| `PluginManagement.NameLeTotal` | app/Logger/Plugins/PluginManager.php:139 | any two names are ordered one way or the other |
| `PluginManagement.NameLeTransitive` | app/Logger/Plugins/PluginManager.php:139 | the name order is transitive |
| `PluginManagement.InsertByName` | app/Logger/Plugins/PluginManager.php:139 | inserting into a sorted list keeps it sorted and adds just that file |
| `PluginManagement.SortByName` | app/Logger/Plugins/PluginManager.php:139 | `sortByName` gives the files in ascending name order, as a permutation of its input |
| `PluginManagement.ClassNames` | app/Logger/Plugins/PluginManager.php:142-144 | one class name per file, in file order |
| `PluginManagement.DiscoveredFiles` | app/Logger/Plugins/PluginManager.php:122-147 | the discovered files are the selected files, each as often as selected, sorted by name; a file is discovered exactly when the directory lists it and it is discoverable |
| `PluginManagement.DiscoveredAreValid` | app/Logger/Plugins/PluginManager.php:130-138 | every discovered class is a loaded plugin class in the plugin namespace |
| `PluginManagement.DiscoveredNames` | app/Logger/Plugins/PluginManager.php:95-117 | a class is discovered exactly when some discoverable file of the directory declares it |
| `PluginManagement.Catch` | app/Logger/Plugins/PluginManager.php:56-57 | an `\Exception` is caught and skipped; an `\Error` escapes unchanged |
| `PluginManagement.AttemptPlugin` | app/Logger/Plugins/PluginManager.php:50-57 | see the notes after this table |
| `PluginManagement.Attempt` | app/Logger/Plugins/PluginManager.php:51 | a loaded plugin class is attempted; any other name raises an `\Error` |
| `PluginManagement.ClassifyFirstHit` | app/Logger/Plugins/PluginManager.php:49-55 | the first plugin that reports decides the result, and whatever follows it is never consulted |
| `PluginManagement.ClassifyNone` | app/Logger/Plugins/PluginManager.php:49-60 | the result is null exactly when every plugin passes, by not matching or by throwing an `\Exception` |
| `PluginManagement.ClassifySome` | app/Logger/Plugins/PluginManager.php:49-60 | reported data always comes from a plugin all of whose predecessors passed |
| `PluginManagement.Classify` | app/Logger/Plugins/PluginManager.php:47-61 | only an `\Error` ever escapes the loop |
| `PluginManagement.MagicLoginFirst` | app/Logger/Plugins/PluginManager.php:49-55 | with MagicLoginPlugin enabled first, every magic-login POST is reported as Magic Login data |
| `PluginManagement.PluginManager.constructor` | app/Logger/Plugins/PluginManager.php:25-30 | see the notes after this table |
| `PluginManagement.PluginManager.GetDefaultPlugins` | app/Logger/Plugins/PluginManager.php:32-35 | every default plugin is a loaded plugin class |
| `PluginManagement.PluginManager.GetCustomPlugins` | app/Logger/Plugins/PluginManager.php:37-40 | every custom plugin is a loaded plugin class |
| `PluginManagement.PluginManager.GetPlugins` | app/Logger/Plugins/PluginManager.php:42-45 | the default plugins then the custom plugins, each in its stored order, all valid |
| `PluginManagement.PluginManager.GetEnabledPlugins` | app/Logger/Plugins/PluginManager.php:63-66 | every enabled plugin is valid, and the enabled names are exactly the configured valid ones |
| `PluginManagement.PluginManager.IsEnabled` | app/Logger/Plugins/PluginManager.php:68-71 | a class is enabled exactly when it is configured and a loaded plugin class, so a configured but invalid class never is |
| `PluginManagement.PluginManager.EnsureValidPluginConfig` | app/Logger/Plugins/PluginManager.php:73-83 | the loop that removes each invalid configured name leaves the configured list filtered to valid classes, in order; nothing else changes |
| `PluginManagement.PluginManager.LoadDefaultPlugins` | app/Logger/Plugins/PluginManager.php:122-147 | the default list is the class names of the discovered default files, in name order |
| `PluginManagement.PluginManager.LoadCustomPlugins` | app/Logger/Plugins/PluginManager.php:85-120 | no custom plugins without the directory; otherwise the class names of the discovered custom files, in name order |
| `PluginManagement.PluginManager.LoadPluginData` | app/Logger/Plugins/PluginManager.php:47-61 | the loop with early returns yields `Classify` over the enabled plugins |

Notes on the longer rows:
- **`Plugins.MagicLoginData`.**
  - The plugin is "Magic Login".
  - The label is the form's `email`, or "Unknown" when the field is absent.
  - The details are exactly `email` (equal to the label) and `type` = `magic_login`.
  - An unreadable body gives the error variant carrying that throwable.
- **`Plugins.PluginLooserThanGate`.** Every gate login submission matches the plugin, with any query. A POST to a longer path that merely contains the login path also matches, but it is not a login submission.
- **`PluginManagement.AttemptPlugin`.**
  - An `\Exception` from `make`, `matchesRequest` or `getPluginData` means skip.
  - A plugin that does not match is skipped.
  - The first `\Error` raised by one of the three calls aborts the loop with that very `\Error`.
  - Data is reported exactly when all three calls succeed and the plugin matches.
- **`PluginManagement.PluginManager.constructor`.**
  - The default and custom lists are the discovered ones.
  - The enabled list is the configured list filtered.
  - Every listed plugin is valid.

## Left out

- Serializing a response (`Message::toString`). A response stays a structured value in the event trace.
- The WebSocket `send` and `close`, and `RequestLogger::logResponseById`. They appear only as events.
- HMAC-SHA256, base64, `filter_var`, `parse_str` and the Blade template. These are uninterpreted fields of `Primitives`. The lemmas rely only on the base64 and HMAC laws in `Lawful`. `parseForm` is typed to give string values only, which is a further assumption about `parse_str` (see the next three lines). `hash_equals` is modelled as plain equality; its constant-time property is not modelled.
- `MagicAuth.SubmittedEmail`: `parse_str` gives an array for a field such as `email[]=x`, and then `trim` throws a `TypeError` (app/Http/Modifiers/CheckMagicAuthentication.php:62). The model's form values are strings only, so this throw is not modelled.
- `MagicAuth.SubmittedRedirect`: an array `redirect_url` makes the calls to `showLoginForm`, whose parameter is `?string`, throw a `TypeError` (app/Http/Modifiers/CheckMagicAuthentication.php:66, 70, 186). Only the 302 branch passes the array on, to the `Location` header (app/Http/Modifiers/CheckMagicAuthentication.php:75-78). The model's form values are strings only, so neither path is modelled.
- `MagicAuth.LoginRedirect`: the response constructor of guzzlehttp/psr7 normalises header values (app/Http/Modifiers/CheckMagicAuthentication.php:75-78). It trims spaces and tabs from each value, so `redirect_url=%20/x` gives `Location: /x`. It also throws `InvalidArgumentException` for a value holding CR, LF or another control character, so `handle` then throws instead of answering 302. The model keeps the redirect URL verbatim and has no such throw.
- `MagicAuth.LoginSubmissionOutcome`: its `Location` is the redirect URL verbatim, for the reason given for `MagicAuth.LoginRedirect`.
- `MagicAuth.HandleLoginFormSubmission`: it answers 302 for every valid, allowed email, even where guzzlehttp/psr7 would throw on the redirect URL, as said for `MagicAuth.LoginRedirect`.
- `Plugins.MagicLoginData`: an array `email` becomes the label and the `email` detail, and any throwable this raises is caught into the error data (app/Logger/Plugins/MagicLoginPlugin.php:27-37). The model's form values are strings only, so that path is not modelled.
- `MagicAuth.LoginForm`: `Content-Length` is the length of the rendered page in characters, not in bytes.
- `PhpStrings.PhpIntCast`: no exponent or float forms, and no 64-bit saturation. A token's timestamp is always plain decimal digits.
- `Arr::get($headers, 'cookie.0')`: modelled as the first value of the header stored under exactly the name `cookie`. Laravel's dot-notation fallbacks for other keys are not modelled.
- PHP's coercion of numeric-string array keys to integers (in `$cookies` and `$formData`) is not modelled. Keys stay strings.
- `PluginManagement.PluginManager.IsEnabled`: `in_array` compares loosely, so two different numeric-looking strings such as `"10"` and `"1e1"` compare equal. The model compares strings exactly. Class names are not numeric strings.
- `array_diff` keeps the surviving entries' original keys, so the enabled list can have gaps in its indexes. The model keeps only the values, in order.
- The filesystem:
  - Finder's directory walk, including recursion into subdirectories;
  - `require_once` of custom plugin files;
  - `mkdir` of the custom plugin directory;
  - the printing of each rejected custom file.

  A plugin directory is the list of its files. The custom directory is `None` when it does not exist. The classes loaded from those files are part of the given `ClassTable`.
- `getCustomPluginDirectory`, `getDefaultPluginDirectory`, `modifyPluginConfiguration` and `writePluginConfig`. These compute file paths and rewrite a config file through a PHP parser, which is file I/O and library code.
- The getters `auth()`, `basicAuth()`, `preventCORS()` and `isSecureSharedUrl()`. Their fields are modelled: the constructor and `SetIsSecureSharedUrl` set them. The getters only return a field and are not used on the request path. `port()`'s `intval` is the identity on an `int`.
- `PluginManagement.NameLe`: orders by code point. For UTF-8 names this is the same as `strcmp`'s byte order. Finder sorts on the full path, which for files in one directory is the same as sorting on the name.
