# Buds at Work site tooling — a Dafny model

This project models the two pieces of logic in the Buds at Work site tooling.

The first is the **directive interpreter** of `scripts/comment_to_config.js`. A GitHub
comment that starts with `/deploy` or `/design` is stripped of that command. The rest is
read by `applyFromText`, which updates the site configuration (`site.json`) in place:
- it fills in missing fields;
- it applies the brand, colour, feature and contact clauses;
- it appends the `service:` lines;
- it normalizes the service list to exactly three entries.

The second is the **page assembly** of `scripts/generate_site.js`:
- `hrefFor`, the name-to-file table;
- the header with its active-link rule and its mobile menu;
- the fixed part order of `baseDoc`;
- the six-page build table of `main`.

Files:
- `schema.dfy` (module `Schema`): the stored values (`Service`, feature values), the default
  brand, the placeholder service and the colour palette.
- `text.dfy` (module `Text`): the JavaScript string primitives the interpreter relies on:
  - the regular-expression classes `\s`, `\w`, `\d`, `.` and `\b`;
  - `toLowerCase` (ASCII part), `trim`, and `split` on one character;
  - the leftmost start-position search that `match`/`test` perform.
- `clauses.dfy` (module `Clauses`): one matcher per regular expression of `applyFromText`.
  Each follows JavaScript's backtracking order literally: a greedy quantifier gives back
  one character at a time, and a lazy one grows one character at a time. An iff lemma ties
  each matcher to a shape predicate that states the match without the scanning functions,
  and for each `match` the leftmost matching position gives the capture (trimmed, for the
  phone). The phone rule is also proved equal to a reference rule without backtracking.
- `directives.dfy` (module `Directives`):
  - the class `Config`, whose `ApplyFromText` method changes the five fields. A missing or
    falsy field is `None`.
  - one function per field giving its value after the call.
  - the value-level steps (`ApplyColors`, `ApplyFeatures` with `ApplyFlags`, `ApplyContact`,
    and `ApplyServices` with the `forEach` loop of `PushServiceLines` and the padding loop of
    `NormalizeServices`), each proved equal to its function.
  - the properties of the outcome: which keys each rule touches, precedence, "only ever
    set to true", the service layout, the empty text, and idempotence.
- `gate.dfy` (module `Gate`): the command gate of `main`. It gives the text handed to
  `applyFromText`, or nothing, and is characterised by the shape of the body it accepts.
- `site.dfy` (module `Site`): `hrefFor` with its inverse, the primary nav, the mobile and
  account menus, the document as a sequence of parts (the stylesheet, icons, modal, footer
  and script are contentless parts), the page bodies with their service cards, and the
  build table.

Facts of the code a reader might not expect:
- The brand rule matches on the lower-cased text, so a renamed brand is stored in lower
  case: "rename brand to River Care" stores `river care` (`Directives.RenamedBrandLowerCase`).
- `generate_site.js` never reads the configuration. The brand, the colours and the service
  cards are fixed in the templates. The Home and Services grids differ in the Window
  Cleaning description (`Site.GridsAgree`).
- Parsed service fields can be empty (`service: a || c` gives an empty description). Only
  the placeholder guarantees non-empty fields.
- With three or more prior services, every `service:` line is dropped by the final
  `slice(0, 3)` (`Directives.ServicesAppended`).

## Model

| member | source | states |
|---|---|---|
| Text.ToLower | scripts/comment_to_config.js:26 | the lower-cased copy has the length of the text |
| Text.ToLowerNoUpper | scripts/comment_to_config.js:26 | the lower-cased copy contains no capital A-Z |
| Text.LowerChar | scripts/comment_to_config.js:26 | a capital maps to its lower-case letter, every other character to itself |
| Text.FirstFrom | scripts/comment_to_config.js:34 | a match found by the left-to-right scan lies in the range and is what the matcher yields there |
| Text.FirstFromLeftmost | scripts/comment_to_config.js:34 | the scan returns the leftmost matching position, and nothing only when no position matches |
| Text.AnyFromIff | scripts/comment_to_config.js:37 | `test` holds exactly when some start position matches |
| Text.Contains | scripts/comment_to_config.js:43-46 | `includes`, the test of a pattern of plain characters; ContainsIff states its meaning |
| Text.ContainsIff | scripts/comment_to_config.js:43-46 | `includes` holds exactly when the literal occurs at some position |
| Text.RunEnd | scripts/comment_to_config.js:34 | a greedy run stops at the end or at the first character outside the class |
| Text.RunEndAll | scripts/comment_to_config.js:34 | every character a greedy run consumed is in the class |
| Text.RunEndUnique | scripts/comment_to_config.js:34 | a run delimited on both sides is the greedy one |
| Text.TrimShape | scripts/comment_to_config.js:35 | `trim` yields a slice of the text that only whitespace precedes and only whitespace follows |
| Text.TrimUnique | scripts/comment_to_config.js:35 | any such slice that is itself trimmed (or empty) is what `trim` yields |
| Text.TrimInfix | scripts/comment_to_config.js:35 | `trim` adds no character and never lengthens |
| Text.TrimEmpty | scripts/comment_to_config.js:55 | `trim` yields the empty string exactly when the text is all whitespace |
| Text.TrimAfterSpaces | scripts/comment_to_config.js:55 | leading whitespace makes no difference to `trim` |
| Text.TrimOfTrimmed | scripts/comment_to_config.js:59 | `trim` leaves a trimmed string unchanged |
| Text.TrimIdempotent | scripts/comment_to_config.js:59 | trimming twice is trimming once |
| Text.Split | scripts/comment_to_config.js:59 | `split` yields one more piece than separators, no piece holds the separator, and joining the pieces gives the string back |
| Text.JoinPart | scripts/comment_to_config.js:59 | every character of a piece occurs in the joined string |
| Clauses.LazyEndIff | scripts/comment_to_config.js:34 | the lazy `(.+?)(;\|$)` from a start succeeds exactly with the first `;` after it, or the end of the text, and never across a line terminator |
| Clauses.BrandCaptureIff | scripts/comment_to_config.js:34 | as `\s+` gives back characters, the capture starts at the last position inside or just after the whitespace from which the lazy capture succeeds |
| Clauses.RenameBrandAtIff | scripts/comment_to_config.js:34 | the matcher at a position succeeds exactly for `rename`, whitespace, `brand`, whitespace, `to`, its maximal whitespace, and the capture just described |
| Clauses.RenameBrandAbsent | scripts/comment_to_config.js:34-35 | no brand is found exactly when the brand pattern matches at no position |
| Clauses.RenameBrandLeftmost | scripts/comment_to_config.js:34-35 | the brand is the capture of the match at the leftmost position where the pattern matches |
| Clauses.HasWordIff | scripts/comment_to_config.js:37-41 | a colour keyword matches exactly when it occurs with a word boundary on both sides |
| Clauses.HasWord | scripts/comment_to_config.js:37-41 | `/\bw\b/.test`; HasWordIff states its meaning |
| Clauses.HasAddFaqIff | scripts/comment_to_config.js:45 | `add faq` matches exactly when it occurs followed by a word boundary |
| Clauses.HasAddFaq | scripts/comment_to_config.js:45 | `/add faq\b/.test`; HasAddFaqIff states its meaning |
| Clauses.UrlAtIff | scripts/comment_to_config.js:48 | `https?:\S+` matches exactly `http` in any case, an optional `s`, a colon and at least one more character, none of them whitespace, ending at whitespace or the end |
| Clauses.HeroTailIff | scripts/comment_to_config.js:48 | `\s*:\s*` then the URL matches exactly when whitespace, a colon and whitespace lead to a URL of that shape |
| Clauses.HeroAtIff | scripts/comment_to_config.js:48 | the matcher at a position succeeds exactly for `hero`, optionally whitespace and `image`, then `\s*:\s*` and the URL, in any case |
| Clauses.HeroUrlAbsent | scripts/comment_to_config.js:48-49 | no hero URL is found exactly when the hero pattern matches at no position |
| Clauses.HeroUrlLeftmost | scripts/comment_to_config.js:48-49 | the hero URL is the URL, in its original case, of the match at the leftmost matching position |
| Clauses.EmailAtIff | scripts/comment_to_config.js:51 | the matcher at a position succeeds exactly for `email`, `\s*:\s*` and a maximal non-empty run free of whitespace and `;` |
| Clauses.EmailAbsent | scripts/comment_to_config.js:51-52 | no address is found exactly when the email pattern matches at no position |
| Clauses.EmailLeftmost | scripts/comment_to_config.js:51-52 | the address is the run of the match at the leftmost matching position |
| Clauses.PhoneColonIff | scripts/comment_to_config.js:54 | `phone\s*:` matches at a position exactly when `phone` in any case and whitespace are followed by a colon, and the capture area starts just after that colon |
| Clauses.PhoneCapture | scripts/comment_to_config.js:54 | the capture is a non-empty run of `+`, digits, whitespace, `(`, `)` and `-` |
| Clauses.PhoneAt | scripts/comment_to_config.js:54 | a phone match starts with `phone` and captures only phone characters |
| Clauses.Phone | scripts/comment_to_config.js:54-55 | the stored phone is trimmed and made only of phone characters |
| Clauses.SpacesArePhoneChars | scripts/comment_to_config.js:54 | the class run reaches past the whitespace run, since whitespace is in the class |
| Clauses.PhoneCaptureLong | scripts/comment_to_config.js:54-55 | when the class run goes beyond the whitespace, the whitespace gives nothing back and the trimmed capture is the trimmed run |
| Clauses.PhoneCaptureShort | scripts/comment_to_config.js:54-55 | when the run is only whitespace, the whitespace gives back one character; the phone is then the empty string |
| Clauses.PhoneCaptureNone | scripts/comment_to_config.js:54 | with no phone character after the colon there is no match |
| Clauses.PhoneCaptureTrim | scripts/comment_to_config.js:54-55 | whatever backtracking happens, the trimmed capture is the trimmed run of phone characters after the colon |
| Clauses.PhoneAtRef | scripts/comment_to_config.js:54-55 | at each position, the literal matcher and the plain description match together and agree on the phone |
| Clauses.PhoneMatchesReference | scripts/comment_to_config.js:54-55 | the phone rule equals its plain description: the trimmed run of phone characters after the leftmost `phone:` |
| Clauses.PhoneCaptureIff | scripts/comment_to_config.js:54 | as `\s*` gives characters back, the capture is the maximal class run from the last position inside the whitespace from which the class can start |
| Clauses.PhoneAtIff | scripts/comment_to_config.js:54 | the phone matcher succeeds at a position exactly when `PhoneShape` holds: `phone` in any case, `\s*:`, whitespace, then a maximal non-empty class run that starts at the last point of the whitespace where the class can start |
| Clauses.PhoneAbsent | scripts/comment_to_config.js:54-55 | no phone is stored exactly when no position has the phone shape |
| Clauses.PhoneLeftmost | scripts/comment_to_config.js:54-55 | the stored phone is the trimmed capture of the leftmost position with the phone shape |
| Clauses.ServiceCaptureIff | scripts/comment_to_config.js:57 | as `\s*` gives back characters, `.+` starts at the last point of the whitespace where a non-empty stretch of the line begins, and runs to the end of the line |
| Clauses.ServiceAtIff | scripts/comment_to_config.js:57 | the matcher at a position succeeds exactly for `service`, `\s*:`, whitespace, and `.+` to the end of its line, starting as just described |
| Clauses.MatchSpansCons | scripts/comment_to_config.js:57 | a match followed by later ordered matches is an ordered list of matches |
| Clauses.ServiceSpans | scripts/comment_to_config.js:57 | the spans of `match` with the `g` flag, each search resuming where the last match ended; ServiceSpansMatch and ServiceSpansComplete state its meaning |
| Clauses.ServiceSpansMatch | scripts/comment_to_config.js:57 | the global scan returns matches in textual order without overlap |
| Clauses.ServiceSpansComplete | scripts/comment_to_config.js:57 | every position where the pattern matches lies inside one of the returned matches |
| Clauses.ServiceLines | scripts/comment_to_config.js:57 | every matched line holds a colon |
| Clauses.Segment | scripts/comment_to_config.js:59 | the text between the first and second colons holds no colon |
| Clauses.ServiceOfLine | scripts/comment_to_config.js:59-61 | a line yields a service exactly when its segment holds at least two `\|` |
| Clauses.ServiceOfLineClean | scripts/comment_to_config.js:59-61 | a parsed service has trimmed fields free of `\|` and `:` |
| Clauses.ParsedServices | scripts/comment_to_config.js:58-64 | no more services than lines are pushed |
| Clauses.ParsedServicesSnoc | scripts/comment_to_config.js:58-64 | one more line pushes its service, when it has one, after those already pushed |
| Clauses.ParsedServicesClean | scripts/comment_to_config.js:58-64 | every pushed service has clean fields |
| Clauses.ParsedServicesConcat | scripts/comment_to_config.js:58-64 | services come out in the order of their lines: parsing distributes over concatenation |
| Directives.BrandOrDefault | scripts/comment_to_config.js:28 | a missing or empty brand becomes `Buds at Work`; any other brand is kept |
| Directives.BrandAfter | scripts/comment_to_config.js:28-35 | a renamed brand is trimmed; without a rename the brand is non-empty, and it is the prior brand when that is non-empty |
| Directives.AccentWord | scripts/comment_to_config.js:37-38 | an accent is chosen exactly when coral, mustard or yellow occurs as a word, mustard exactly when mustard or yellow does, and only coral or mustard |
| Directives.PrimaryWord | scripts/comment_to_config.js:39-40 | a primary colour is chosen exactly when green or purple occurs as a word, green exactly when green does |
| Directives.PaperWord | scripts/comment_to_config.js:41 | a paper colour is chosen exactly when cream or ivory occurs as a word, and it is cream |
| Directives.ColorsAfter | scripts/comment_to_config.js:37-41 | the colour map keeps every prior key and adds at most accent, primary and paper |
| Directives.FlagsAfter | scripts/comment_to_config.js:43-46 | the four flag rules keep every prior key, and every entry they change is `true` |
| Directives.FeaturesAfter | scripts/comment_to_config.js:43-49 | the feature map keeps every prior key and adds only the five feature keys |
| Directives.ContactAfter | scripts/comment_to_config.js:51-55 | the contact map keeps every prior key and adds at most email and phone |
| Directives.ServicesAfter | scripts/comment_to_config.js:57-67 | exactly three services, the prior ones first in their places |
| Directives.Normalize | scripts/comment_to_config.js:66-67 | exactly three services: the given ones first, placeholders after them |
| Directives.Config.ApplyFromText | scripts/comment_to_config.js:25-70 | afterwards every field is present with three services, and each field is its outcome function of the text and its prior value |
| Directives.ApplyColors | scripts/comment_to_config.js:37-41 | the five colour rules in source order yield the colour outcome |
| Directives.ApplyFeatures | scripts/comment_to_config.js:43-49 | the flag rules, then the hero rule, yield the feature outcome |
| Directives.ApplyFlags | scripts/comment_to_config.js:43-46 | the four flag rules in source order yield the flag outcome |
| Directives.ApplyContact | scripts/comment_to_config.js:51-55 | the email and phone rules yield the contact outcome |
| Directives.ApplyServices | scripts/comment_to_config.js:57-67 | proved equal to `ServicesAfter` |
| Directives.PushServiceLines | scripts/comment_to_config.js:58-64 | the `forEach` appends the services of the matched lines, in order, after the prior ones |
| Directives.NormalizeServices | scripts/comment_to_config.js:66-67 | the padding loop and the `slice` yield exactly the normalized list |
| Directives.PutFrame | scripts/comment_to_config.js:37-55 | a rule writes its own key and no other, and writes nothing when it does not fire |
| Directives.RenamedBrandLowerCase | scripts/comment_to_config.js:26-35 | a renamed brand contains no capital letter and does not depend on the prior brand |
| Directives.BrandKeptWithoutRename | scripts/comment_to_config.js:28-35 | without a rename clause the brand is the prior one, or the default when that is missing or empty |
| Directives.ColourPrecedence | scripts/comment_to_config.js:37-41 | mustard or yellow beats coral, green beats purple, and cream or ivory sets the paper colour, whatever the word order |
| Directives.ColoursUntouched | scripts/comment_to_config.js:37-41 | a colour entry none of whose words occur keeps its prior value, or stays absent |
| Directives.ColoursOnlyPalette | scripts/comment_to_config.js:37-41 | the colour rules touch only accent, primary and paper, and only with palette values; other entries keep their values |
| Directives.FeatureWriteStep | scripts/comment_to_config.js:43-49 | a permitted write keeps the "only permitted writes" invariant |
| Directives.FeatureWritesOnly | scripts/comment_to_config.js:43-49 | five permitted writes leave only permitted changes |
| Directives.FeaturesOnlySetTrue | scripts/comment_to_config.js:43-49 | the feature rules never clear a flag: a changed entry is `true`, or the hero URL under `heroImage`, and no key is removed |
| Directives.FeatureWritesFrame | scripts/comment_to_config.js:43-49 | the five writes add no other key and leave other keys unchanged |
| Directives.FeaturesFrame | scripts/comment_to_config.js:43-49 | the feature rules touch only their five keys |
| Directives.FeatureEffects | scripts/comment_to_config.js:43-49 | each flag is `true` when its words occur and untouched otherwise; `heroImage` is the hero URL when there is one and untouched otherwise |
| Directives.RoundedIsBareSubstring | scripts/comment_to_config.js:43 | the `rounded buttons` alternative adds nothing to the bare `rounded` |
| Directives.RoundedSetsFlag | scripts/comment_to_config.js:43 | any occurrence of `rounded`, even inside a word, sets `roundedButtons` |
| Directives.ContactFrame | scripts/comment_to_config.js:51-55 | the contact rules touch only email and phone, write the extracted values, and leave an entry untouched when its rule finds nothing |
| Directives.NormalizeIdempotent | scripts/comment_to_config.js:66-67 | normalizing twice is normalizing once |
| Directives.ServicesAppended | scripts/comment_to_config.js:57-67 | prior services keep their places, parsed ones follow, placeholders pad; with three or more prior services the lines are discarded |
| Directives.NormalizeAppend | scripts/comment_to_config.js:66-67 | padding and slicing an appended list keeps the prior entries first, the appended ones after them and placeholders last; three or more prior entries are all that remain |
| Directives.ParsedServicesAreClean | scripts/comment_to_config.js:57-63 | the services a text contributes have trimmed fields free of `\|` and `:` |
| Directives.NothingInEmpty | scripts/comment_to_config.js:34-57 | no clause rule fires on the empty text |
| Directives.EmptyTextKeeps | scripts/comment_to_config.js:28-67 | an empty comment changes nothing in a complete configuration with a non-empty brand and three services |
| Directives.NoClauseKeeps | scripts/comment_to_config.js:28-67 | a comment in which no rule fires (no rename, colour word, feature phrase, hero, email or phone clause, and no service line that yields a service) changes nothing in a complete configuration with a non-empty brand and three services |
| Directives.ApplyIdempotent | scripts/comment_to_config.js:25-70 | applying the same text twice gives the same configuration as applying it once |
| Directives.ColorsTwice | scripts/comment_to_config.js:37-41 | the colour rules are idempotent |
| Directives.FeatureWritesTwice | scripts/comment_to_config.js:43-49 | repeating the five writes changes nothing |
| Directives.FeaturesTwice | scripts/comment_to_config.js:43-49 | the feature rules are idempotent |
| Directives.ContactTwice | scripts/comment_to_config.js:51-55 | the contact rules are idempotent |
| Directives.ServicesTwice | scripts/comment_to_config.js:57-67 | appending and normalizing again leaves three services unchanged |
| Gate.CommandText | scripts/comment_to_config.js:73-79 | only a comment event whose body passes the command test yields text, which is a proper suffix of the body starting with a non-space |
| Gate.IsCommand | scripts/comment_to_config.js:77 | the command test `^\s*\/(deploy\|design)\b` with the `i` flag; CommandTextIff states the shape it accepts |
| Gate.CommandBoundary | scripts/comment_to_config.js:77 | `\b` after the command word means a non-word character or the end |
| Gate.CommandTextShape | scripts/comment_to_config.js:77-79 | accepted text follows whitespace, a slash, `deploy` or `design` in any case, a word boundary and whitespace |
| Gate.ShapeCommandText | scripts/comment_to_config.js:77-79 | a body of that shape is accepted and yields what follows the command |
| Gate.CommandTextIff | scripts/comment_to_config.js:73-79 | the gate yields a text exactly for comment bodies of that shape, and the text is what follows the command |
| Site.HrefFor | scripts/generate_site.js:438-451 | every link target is `#` or an `.html` file |
| Site.HrefForPages | scripts/generate_site.js:438-451 | exactly the six page names lead to a file that leads back to them, and none of them leads to `#` |
| Site.HrefForDistinct | scripts/generate_site.js:438-443 | the six pages have six distinct files |
| Site.HrefForOthers | scripts/generate_site.js:444-449 | exactly Orders, Bookings and Payments lead to `#`; any other name leads to the home file |
| Site.NavLink | scripts/generate_site.js:128 | `is(t)`: the link to `hrefFor(t)`, with class `on` exactly when `t` is active; NavMarksActive states it for the nav |
| Site.PrimaryNav | scripts/generate_site.js:137-143 | the five `nav-center` links in template order; NavMarksActive and AtMostOneMarked state their meaning |
| Site.MobileMenu | scripts/generate_site.js:168-174 | the `mobile-menu` links; MobileMatchesNav relates them to the primary nav |
| Site.AccountMenu | scripts/generate_site.js:156-161 | the account dropdown; AccountMenuPlaceholders states its targets and labels |
| Site.AccountMenuPlaceholders | scripts/generate_site.js:156-161 | the three account entries all lead to `#`, and only the third is labelled differently from its name |
| Site.HeaderHTML | scripts/generate_site.js:127-177 | the header links: logo, primary nav, cart, account menu, mobile menu; HeaderOnlyMarksDiffer states what the active label changes |
| Site.Marked | scripts/generate_site.js:128 | the marked label is that of a link with class `on`, and none is found only when no link has it |
| Site.NavMarksActive | scripts/generate_site.js:128-142 | the primary nav lists the five labels in order, each linked by `hrefFor`, with class `on` exactly when the label is the active one |
| Site.AtMostOneMarked | scripts/generate_site.js:128-142 | one link is marked when the active label is a nav label, none otherwise |
| Site.MobileMatchesNav | scripts/generate_site.js:138-173 | the mobile menu lists the same pages as the primary nav, in the same order, with the same targets |
| Site.HeaderOnlyMarksDiffer | scripts/generate_site.js:127-177 | headers for different active labels differ only in the primary nav |
| Site.GridsAgree | scripts/generate_site.js:257-294 | the Home and Services grids show the same three services at the same prices; only the Window Cleaning description differs |
| Site.Grid | scripts/generate_site.js:256-295 | the `grid-3` service cards of a page body; GridsAgree compares the two grids |
| Site.BaseDocUnbuild | scripts/generate_site.js:419-435 | a document gives back its title and body, and the active label when the nav has it |
| Site.BaseDoc | scripts/generate_site.js:419-435 | the parts of a document in order; BaseDocUnbuild gives its inverse and SharedChrome what any two documents share |
| Site.SharedChrome | scripts/generate_site.js:419-435 | any two documents agree on every part but the title, the nav marks and the body |
| Site.BuildsMatchHrefs | scripts/generate_site.js:462-467 | six pages are built, one per page name, each written to the file `hrefFor` gives its title |
| Site.SiteFiles | scripts/generate_site.js:462-467 | the six files `main` writes, each with its document; BuildsMatchHrefs and PagesMarkActive state their meaning |
| Site.PagesMarkActive | scripts/generate_site.js:462-467 | each page marks its own nav link, except the cart page, which marks Home |

## Left out

- Reading the event, loading and saving `site.json`, the environment variables and the step summary (`readEvent`, `loadConfig`, `saveConfig`, the rest of `main` in comment_to_config.js). These are file, environment and JSON I/O. The event name, the comment body and the prior configuration are parameters instead.
- `getPrompt`, `ensureDir`, `writeFile` and the file writes of `main` in generate_site.js. The build is the list of file names with their documents.
- The unused helper `pick`.
- Text.ToLower: lower-cases the ASCII letters only. Unicode case mapping (the Kelvin sign, dotted capital I, and so on) is not modelled. The clause literals are ASCII, so the `i` flag behaves as modelled.
- Directives.Config.ApplyFromText: computes each field's new value from its prior value and assigns all five fields once at the end. The source updates the objects in place step by step. The resulting values are the same, but aliasing of the nested objects with other references is not modelled.
- Directives.Config: only the five fields the call touches are modelled. `loadConfig` returns the whole parsed `site.json`, and `applyFromText` hands back that same object, so any other top-level key passes through unchanged; such keys are not part of the model.
- Directives.Config: a field is `None` when it is missing or falsy. Configurations whose fields hold JSON values of another type (a number or a string for `colors`, say) are not modelled. Maps carry no key order, so the key order of the saved JSON is not modelled.
- The contents of the stylesheet, the noise SVG, the icons, the modal, the footer and the inline script are contentless parts. The `encodeURIComponent` call and the browser behaviour of the inline script are not modelled.
- Site: the body markup of each page apart from its service cards is an opaque page body.
- Config-driven rendering: generate_site.js does not read the configuration, so there is nothing of it to model.
