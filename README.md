# RegexpHTMLParser, modelled in Dafny

JMeter's `RegexpHTMLParser` finds the embedded resources of an HTML page
(images, scripts, applets, frames, backgrounds, stylesheets) with a single
regular expression instead of an HTML parser. This project models its core
and proves properties of that model:

- **The match-processing scan** (`ResourceScan`, file `resource_scan.dfy`).
  `getEmbeddedResourceURLs` walks the matches of the expression in document
  order and keeps a base URL as it goes. For each match it first visits
  groups 1..`NUM_BASE_GROUPS` (the `<base href>` values). Each non-null one
  is resolved against the current base and replaces it; a resolution that
  fails leaves the base as it was. It then hands every later non-null group
  to the collector (`urls.addURL(s, baseUrl)`) with the base in effect at
  that moment. `GetEmbeddedResourceUrls` has the source's loops: a `while`
  over the matches, an inner loop over the base groups and an inner loop
  over the resource groups. It is proved against the specification
  functions `BaseAfter` and `Emitted`, and the lemmas beside it state what
  those functions mean.
- **The group layout** (`Grammar`, file `grammar.dfy`). The expression is an
  alternation of tag shapes. The first, the comment, holds no group. Each
  other shape holds one copy of `VALUE`, and each copy holds three groups
  (double-quoted, single-quoted, unquoted). The `<base href>` shape is the
  first shape with capturing groups, which is why `NUM_BASE_GROUPS` is 3.
  `TagMatch(a, q, v)` builds the match of a single tag: 21 groups, of which
  only shape a's group for quoting form q is set, to v (none for a
  comment). The `TagMatch*` lemmas and the two-tag scenarios are about such
  matches. A real match of the INPUT or LINK shape can set more than one of
  its shape's groups, since those shapes repeat their attribute part `{2,}`
  times; `OneShapeBaseOrResources` covers those as well.
- **The attribute-value micro-grammar** (`AttributeValue`, file
  `attribute_value.dfy`). `MatchValue` recognizes the `VALUE` fragment at a
  position of a string: optional whitespace, `=`, optional whitespace, then
  exactly one of the three forms. It returns which form (hence which group)
  matched, the group's text and where the match ends. It is proved sound and
  complete against a declarative reading of the fragment (`ValueAt`), which
  also shows that `VALUE` can match in at most one way. `MatchCompanion`
  recognizes the fixed companion attributes `TYPE=image` and
  `REL=stylesheet`, compared case-insensitively. It is proved to accept
  exactly the `VALUE`s whose text equals the word up to case.

The model's inputs:
- The regular-expression engine is abstract. The scan receives the
  sequence of matches it would find. A match is a `seq<Option<string>>`:
  group g is element g - 1, and None is a null group.
- `new URL(base, s)` is a parameter `resolve: (U, string) -> Option<U>` over
  a type parameter `U` of URLs. None stands for `MalformedURLException`.
- The collector is the class `UrlCollection`. Its sequence field `pairs`
  records every `(string, base)` pair handed to `addURL`, in order.

The specification functions `Rebase`, `BaseThrough`, `MatchBase`,
`PairsFrom`, `MatchPairs`, `BaseAfter`, `Emitted`, `EmittedPreMatch`,
`BaseOrResources`, `NonNullGroupSet` and
`ResourceGroupCount` carry no contract of their own. The lemmas in the
table state what they mean.

In the code, the base groups of a match are processed before that match's
resource groups. A resource group in the same match as a base href would
therefore carry the updated base; the model follows the code (`Emitted`,
`PairsOfMatch`). If same-match resources kept the pre-match base instead
(`EmittedPreMatch`), the result could differ only for a match that sets
both a base group and a resource group. `ReadingsAgree` proves that the two
readings hand out the same pairs whenever no match does that. Every group
of an alternative lies on one side of `NUM_BASE_GROUPS` (`CaptureGroup`),
so no match of a single alternative does it (`OneShapeBaseOrResources`).

## Model

| member | source | states |
|---|---|---|
| `Grammar.CaptureGroup` | src/protocol/http/org/apache/jmeter/protocol/http/parser/RegexpHTMLParser.java:98-111 | Each shape's value group lies in 1..21, and the group is at most `NUM_BASE_GROUPS` exactly when the shape is `<base href>`. |
| `Grammar.CaptureGroupsDistinct` | src/protocol/http/org/apache/jmeter/protocol/http/parser/RegexpHTMLParser.java:98-108 | Distinct (shape, quoting form) pairs capture into distinct groups, so no two tag shapes share a group. |
| `ResourceScan.UrlCollection.AddUrl` | src/protocol/http/org/apache/jmeter/protocol/http/parser/RegexpHTMLParser.java:235 | `addURL` appends exactly one `(s, base)` pair and changes nothing else. |
| `ResourceScan.GetEmbeddedResourceUrls` | src/protocol/http/org/apache/jmeter/protocol/http/parser/RegexpHTMLParser.java:181-240 | The scan appends exactly `Emitted(resolve, baseUrl, matches)` to the collector, after whatever it held, and returns the collector's contents. An empty match sequence leaves the collector untouched. Neither group loop reads past `groups()`. |
| `ResourceScan.EmittedGroups` | src/protocol/http/org/apache/jmeter/protocol/http/parser/RegexpHTMLParser.java:226-237 | The groups the resource loop hands out, from group g on, are strictly ascending. Each is a non-null group within the match, and every non-null group from g on is among them. |
| `ResourceScan.PairsFromAreGroups` | src/protocol/http/org/apache/jmeter/protocol/http/parser/RegexpHTMLParser.java:226-237 | The resource loop hands out one pair per non-null group, in ascending group order. Each pair holds that group's text and the current base; null groups produce nothing. |
| `ResourceScan.BaseGroupsNeverEmitted` | src/protocol/http/org/apache/jmeter/protocol/http/parser/RegexpHTMLParser.java:197-237 | Every pair a match emits comes from a non-null group numbered above `NUM_BASE_GROUPS` and carries the base in effect. Base-href groups are never handed to the collector. |
| `ResourceScan.PairsIgnoreBaseGroups` | src/protocol/http/org/apache/jmeter/protocol/http/parser/RegexpHTMLParser.java:226-237 | What a match emits from group g on depends only on groups g..`groups()`, not on the base-href groups. |
| `ResourceScan.PairsFromCount` | src/protocol/http/org/apache/jmeter/protocol/http/parser/RegexpHTMLParser.java:226-237 | The resource loop emits as many pairs as there are non-null groups among those it visits. |
| `ResourceScan.FailedResolutionsKeepBase` | src/protocol/http/org/apache/jmeter/protocol/http/parser/RegexpHTMLParser.java:206-223 | When every non-null base group fails to resolve, the base is unchanged. |
| `ResourceScan.NullGroupsKeepBase` | src/protocol/http/org/apache/jmeter/protocol/http/parser/RegexpHTMLParser.java:197-201 | Null base groups leave the base unchanged. |
| `ResourceScan.SingleBaseGroup` | src/protocol/http/org/apache/jmeter/protocol/http/parser/RegexpHTMLParser.java:197-225 | With exactly one non-null base group s, the new base is `resolve(base, s)`, or the old base when that resolution fails. |
| `ResourceScan.TrailingNullNoPairs` | src/protocol/http/org/apache/jmeter/protocol/http/parser/RegexpHTMLParser.java:226 | One more null group at the end of a match adds no pair from any group g on. |
| `ResourceScan.TrailingNullKeepsBase` | src/protocol/http/org/apache/jmeter/protocol/http/parser/RegexpHTMLParser.java:197 | One more null group at the end of a match leaves the new base unchanged, also when the match is shorter than `NUM_BASE_GROUPS` and the base loop visits that group. |
| `ResourceScan.BaseThroughPrefix` | src/protocol/http/org/apache/jmeter/protocol/http/parser/RegexpHTMLParser.java:197-199 | The base after groups 1..n is unaffected by any groups after n. |
| `ResourceScan.TrailingNullGroupIgnored` | src/protocol/http/org/apache/jmeter/protocol/http/parser/RegexpHTMLParser.java:197-237 | One more null group at the end of a match changes neither the pairs emitted nor the new base. |
| `ResourceScan.ScanAppend` | src/protocol/http/org/apache/jmeter/protocol/http/parser/RegexpHTMLParser.java:190-238 | Scanning a + b is scanning a, then scanning b from the base a left, for both the final base and the emitted pairs. The base carries across loop iterations. |
| `ResourceScan.EarlierPairsUnaltered` | src/protocol/http/org/apache/jmeter/protocol/http/parser/RegexpHTMLParser.java:190-238 | The pairs of the first k matches are a prefix of the pairs of the whole scan. A later match, a later `<base>` included, never alters a pair already emitted. |
| `ResourceScan.LastMatchPairs` | src/protocol/http/org/apache/jmeter/protocol/http/parser/RegexpHTMLParser.java:190-238 | The pairs of the first k + 1 matches are those of the first k, then match k's own, carrying the base left by matches 0..k. |
| `ResourceScan.PairsOfMatch` | src/protocol/http/org/apache/jmeter/protocol/http/parser/RegexpHTMLParser.java:190-238 | The pairs of match k sit between those of the earlier and later matches. They carry the base produced by the base groups of matches 0..k. |
| `ResourceScan.EmittedCount` | src/protocol/http/org/apache/jmeter/protocol/http/parser/RegexpHTMLParser.java:190-237 | The number of `addURL` calls is the sum, over all matches, of the number of non-null groups above `NUM_BASE_GROUPS`. |
| `ResourceScan.UnresolvableBasesKeepSeed` | src/protocol/http/org/apache/jmeter/protocol/http/parser/RegexpHTMLParser.java:190-225 | If no base href of any match resolves, the base stays the caller's `baseUrl` for the whole scan. |
| `ResourceScan.TrailingNullGroupsIgnored` | src/protocol/http/org/apache/jmeter/protocol/http/parser/RegexpHTMLParser.java:190-238 | Reading every match with one more null group at its end leaves the scan's final base and its pairs unchanged. |
| `ResourceScan.OneShapeBaseOrResources` | src/protocol/http/org/apache/jmeter/protocol/http/parser/RegexpHTMLParser.java:98-108 | A match whose non-null groups all belong to one alternative, several of them included, never sets both a base group and a resource group. |
| `ResourceScan.ReadingsAgree` | src/protocol/http/org/apache/jmeter/protocol/http/parser/RegexpHTMLParser.java:197-237 | When no match sets both a base group and a resource group, handing resources the base from before their own match gives exactly the pairs the code hands out. |
| `ResourceScan.TwoMatches` | src/protocol/http/org/apache/jmeter/protocol/http/parser/RegexpHTMLParser.java:190-238 | Scanning two matches emits the first match's pairs with its own base, then the second's with the base left after both. |
| `ResourceScan.TagMatchPairs` | src/protocol/http/org/apache/jmeter/protocol/http/parser/RegexpHTMLParser.java:226-237 | A resource tag's match emits its value once. A `<base href>` match or a comment emits nothing. |
| `ResourceScan.TagMatchBase` | src/protocol/http/org/apache/jmeter/protocol/http/parser/RegexpHTMLParser.java:197-225 | A `<base href>` match moves the base to its value resolved against the current base (kept on failure). Other matches leave the base unchanged. |
| `ResourceScan.BaseBeforeResource` | src/protocol/http/org/apache/jmeter/protocol/http/parser/RegexpHTMLParser.java:190-238 | For `<base href=u>` then a resource r, the one pair emitted is r with u resolved against the seed, whatever the seed. |
| `ResourceScan.ResourceBeforeBase` | src/protocol/http/org/apache/jmeter/protocol/http/parser/RegexpHTMLParser.java:190-238 | For a resource r then `<base href=u>`, the one pair emitted is r with the seed: the later `<base>` does not apply. |
| `ResourceScan.MalformedBaseIgnored` | src/protocol/http/org/apache/jmeter/protocol/http/parser/RegexpHTMLParser.java:206-223 | An unresolvable `<base href>` does not stop the scan, and the next resource is paired with the prior base. |
| `AttributeValue.FirstStop` | src/protocol/http/org/apache/jmeter/protocol/http/parser/RegexpHTMLParser.java:85 | A greedy negated class such as `[^"]*` runs to the first stop character, or to the end of the text. |
| `AttributeValue.SkipSpace` | src/protocol/http/org/apache/jmeter/protocol/http/parser/RegexpHTMLParser.java:85 | `\s*` consumes whitespace only, and stops before a non-whitespace character or at the end. |
| `AttributeValue.AfterEquals` | src/protocol/http/org/apache/jmeter/protocol/http/parser/RegexpHTMLParser.java:85 | `\s*=\s*`, when it matches, ends after its start and within the text. |
| `AttributeValue.ValueForm` | src/protocol/http/org/apache/jmeter/protocol/http/parser/RegexpHTMLParser.java:85 | The three forms give these captures: double-quoted text has no `"`, single-quoted text has no `'`. Unquoted text is non-empty, does not start with a quote, holds no whitespace or `>`, and is followed by whitespace or `>`. |
| `AttributeValue.MatchValue` | src/protocol/http/org/apache/jmeter/protocol/http/parser/RegexpHTMLParser.java:84-86 | The same guarantees for the whole fragment. The lookahead character after an unquoted value is not consumed. |
| `AttributeValue.MatchValueSound` | src/protocol/http/org/apache/jmeter/protocol/http/parser/RegexpHTMLParser.java:84-86 | Whatever `MatchValue` returns is a match of the fragment read declaratively (`ValueAt`). |
| `AttributeValue.MatchValueComplete` | src/protocol/http/org/apache/jmeter/protocol/http/parser/RegexpHTMLParser.java:84-86 | Every declarative match of the fragment at a position is what `MatchValue` returns. |
| `AttributeValue.ValueFormComplete` | src/protocol/http/org/apache/jmeter/protocol/http/parser/RegexpHTMLParser.java:85 | Every declarative match of the three forms is what `ValueForm` returns. |
| `AttributeValue.ValueUnambiguous` | src/protocol/http/org/apache/jmeter/protocol/http/parser/RegexpHTMLParser.java:84-86 | The fragment matches in at most one way at a position. Its form (so which one of the three groups is set), text and end are determined. |
| `AttributeValue.WordForm` | src/protocol/http/org/apache/jmeter/protocol/http/parser/RegexpHTMLParser.java:106-107 | `"word"`, `'word'` or the bare word with its lookahead ends within the text, after it starts. |
| `AttributeValue.MatchCompanion` | src/protocol/http/org/apache/jmeter/protocol/http/parser/RegexpHTMLParser.java:106-107 | A companion attribute matches only after its name, written in any case, and ends after it. |
| `AttributeValue.ToLowerKeepsDelimiters` | src/protocol/http/org/apache/jmeter/protocol/http/parser/RegexpHTMLParser.java:165 | Case-insensitive comparison never confuses a quote, whitespace or `>` with another character. |
| `AttributeValue.EqualsPlainWord` | src/protocol/http/org/apache/jmeter/protocol/http/parser/RegexpHTMLParser.java:106-107 | Text equal up to case to `image` or `stylesheet` holds no quote, whitespace or `>`. |
| `AttributeValue.CompanionIsValue` | src/protocol/http/org/apache/jmeter/protocol/http/parser/RegexpHTMLParser.java:106-107 | Both directions: the companion attribute matches exactly when the name matches and a `VALUE` follows whose text equals the word up to case, and both end at the same place. Only the quoted forms and a bare word followed by whitespace or `>` are accepted. |
| `AttributeValue.WordFormIsValueForm` | src/protocol/http/org/apache/jmeter/protocol/http/parser/RegexpHTMLParser.java:106-107 | The word alternation accepts exactly the `VALUE` forms whose text equals the word up to case, ending where they end. |
| `AttributeValue.QuotedWordIsValue` | src/protocol/http/org/apache/jmeter/protocol/http/parser/RegexpHTMLParser.java:106-107 | A quoted word is a quoted value with that text, and after a quote the bare word cannot match. |
| `AttributeValue.BareWordIsValue` | src/protocol/http/org/apache/jmeter/protocol/http/parser/RegexpHTMLParser.java:106-107 | A bare word is an unquoted value with that text, ending at the word's end. |
| `AttributeValue.MatchTypeImage` | src/protocol/http/org/apache/jmeter/protocol/http/parser/RegexpHTMLParser.java:106 | `TYPE=image` matches exactly when `type`, in any case, is followed by a `VALUE` whose text is `image` in any case. |
| `AttributeValue.MatchRelStylesheet` | src/protocol/http/org/apache/jmeter/protocol/http/parser/RegexpHTMLParser.java:107 | `REL=stylesheet` matches exactly when `rel`, in any case, is followed by a `VALUE` whose text is `stylesheet` in any case. |

## Left out

- The ORO regular-expression engine (`Perl5Compiler`, `Perl5Matcher`, `PatternMatcherInput`) is a foreign library, so the sequence of matches is an input. The whole expression `REGEXP` is not modelled, only its group layout and its `VALUE` and companion fragments. That leaves out the non-greedy comment `.*?`, `SEP`'s backtracking and the `{2,}` repetition of the INPUT and LINK shapes. As written, that repetition is met by any two of its branches, for instance two `SRC` attributes and no `TYPE=image`; this is read from the expression, not proved.
- Compiling the expression, and the `Error` thrown when it fails to compile, are not modelled: that is the same foreign library.
- `java.net.URL` construction and resolution are a foreign call, modelled as the abstract partial function `resolve`.
- The `ThreadLocal` matcher and input caches are concurrency plumbing with no logical content. Each scan here works on its own values, and the specification functions are deterministic, so scanning a document twice gives the same pairs.
- Logging is diagnostics only.
- `new String(html)` decodes bytes with the platform charset, an I/O policy. The model starts from the matches found in the decoded text.
- What `URLCollection` does behind `addURL` (resolution, duplicate removal) is external, and so is `isReusable`. The model records the pairs handed over.
- `GetEmbeddedResourceUrls`: `match.groups()` is taken as the number of capturing groups. ORO also counts group 0, so the source's last iteration reads a group past the last capturing one. Reading that group as null changes nothing, for one match (`TrailingNullGroupIgnored`) and for the whole scan (`TrailingNullGroupsIgnored`).
- `IsSpace`: `\s` is modelled as Perl 5's five characters (space, tab, line feed, carriage return, form feed). Any wider Unicode whitespace class the engine may apply is not modelled.
- `MatchCompanion`: the case-insensitive comparison folds ASCII letters only. Java's case mapping of non-ASCII characters is not modelled.
