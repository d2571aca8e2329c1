# cf-email-utils in Dafny

A verified model of the two request handlers of cf-email-utils. This is a
command-line tool that keeps Cloudflare email-routing rules in step with the
aliases of a password manager or alias service.

- **Import** (`ImportHandler`, src/handlers/import.rs) reads a SimpleLogin or
  Bitwarden CSV export and extracts a map from alias local-part to note. It then
  posts one forwarding rule per alias, tolerating a 409 conflict.
- **Delete** (`DeleteHandler`, src/handlers/delete.rs) either takes the rule ids
  given on the command line or pages through the zone's rule list (50 per page)
  and collects the id of every rule that is not the catch-all. It then deletes
  each target and fails on the first transport error or 4xx/5xx status.

Supporting modules:

- `Common`: `Option`, `Result` (usable with `:-`) and the error kinds.
- `Text`: the `str` operations the handlers use (`trim`, `find`, `split`,
  `ends_with`, `trim_end_matches`, `to_lowercase`, `usize::to_string`), with
  their contracts.
- `Models`: the shapes of the routing-rule and list-response objects, and the
  outcome of sending one request.

How the handlers are modelled:

- The export file is an `ExportFile`. It is either unopenable or a header row
  (absent when the reader cannot produce one) followed by CSV records, each
  holding its fields or malformed.
- The HTTP client is passed in as functions:
  - creating a rule maps a URL and payload to a `SendResult`;
  - listing maps a page query to a parsed `ListResponse` or an error;
  - deleting maps a URL to a `SendResult`.
- `HashMap` collection and `extend` are a last-write-wins fold, `CollectMap`.
- `get_aliases_bw` is an imperative loop over a `map` variable.
  `InsertRecords`, `InsertUsername` and `ExtendWithTokens` are proved equal to
  the fold of every insert the source makes, in the source's order.
- `list` is the source's `loop`:
  - it increments `page`;
  - it overwrites the first query pair in place;
  - it grows the route set.

  It is proved to issue exactly the queries for pages 1, 2, … up to the first
  page that stops it, and to return `ListOutcome`.

A create request fails the import only through an `Err` from `send`
(src/handlers/import.rs:189-197). An `Ok` response of any status, 500
included, does not abort the import. `CreateFailure` and `ConflictTolerated`
state this behaviour.

## Model

| member | source | states |
|---|---|---|
| ImportHandler.HeaderIndex | src/handlers/import.rs:37-42 | succeeds iff the header is present, with the index of its first occurrence; otherwise a missing-header error (the model tags it with the header's name, see Left out) |
| ImportHandler.CollectRecords | src/handlers/import.rs:53-56 | fails iff some record is malformed; otherwise keeps every record's fields, in order |
| ImportHandler.CollectMapKeys | src/handlers/import.rs:70 | a key is in the collected map iff some entry carries it |
| ImportHandler.CollectMapAppend | src/handlers/import.rs:113-119 | inserting a second batch (`extend`) is the right-biased union of the two collected maps |
| ImportHandler.CollectMapLastWins | src/handlers/import.rs:105-120 | an entry that no later entry shares a key with decides that key's note (later inserts overwrite earlier ones) |
| ImportHandler.CollectMapNotesByKey | src/handlers/import.rs:109-117 | when every note is a function of its key, the map's notes are that function, whatever the insert order |
| ImportHandler.RemoveDomain | src/handlers/import.rs:74-79 | the result has no `@`, is a prefix of the address, is followed by `@` in the address when the address has one, and is the whole address otherwise |
| ImportHandler.NormalizeSuffix | src/handlers/import.rs:87-91 | the suffix starts with `@`; it is the domain when the domain starts with `@`, else `@` followed by the domain |
| ImportHandler.StripLeadingAt | src/handlers/import.rs:148-152 | the domain loses exactly one leading `@` when it has one, and is unchanged otherwise |
| ImportHandler.AddressUsesSuffix | src/handlers/import.rs:165 | the created rule's address `{alias}@{domain}` is the alias followed by the Bitwarden suffix |
| ImportHandler.SlAddressRoundTrip | src/handlers/import.rs:64 | a SimpleLogin address is reproduced by the rule created for it iff it has an `@` and its domain part is the configured domain without its leading `@` |
| ImportHandler.BwAddressRoundTrip | src/handlers/import.rs:105-109 | a Bitwarden username ending with the suffix is reproduced by its rule iff it does not end with two copies of the suffix |
| ImportHandler.SlEntryMeaning | src/handlers/import.rs:58-69 | a record yields an entry iff its `enabled` field exists and is a casing of "true" and its `alias` field exists; the key is the alias without its domain, and the note is the `note` field or "" |
| ImportHandler.SlEntriesMembership | src/handlers/import.rs:58-69 | an entry is in the filtered list iff some record yields it |
| ImportHandler.SlAliasesMeaning | src/handlers/import.rs:53-70 | no key contains `@`; a key is in the SimpleLogin map iff some enabled record with an alias yields it, and its note is the one yielded by the last record that carries that key |
| ImportHandler.SlAliasesNote | src/handlers/import.rs:53-70 | a key of the SimpleLogin map is yielded, with its note, by some record that no later record carrying the same key follows |
| ImportHandler.GetAliasesSl | src/handlers/import.rs:44-72 | error order: unopenable file, then no headers, then missing `alias`, `enabled` and `note` in turn, then any malformed record, which fails the whole extraction; never the unsupported-format error |
| ImportHandler.TokenEntry | src/handlers/import.rs:105-119 | a trimmed token yields an alias iff it ends with the suffix; the alias is the trimmed token with one or more trailing copies of the suffix removed and no longer ends with it; the note is "Used for " + alias |
| ImportHandler.BwAliases | src/handlers/import.rs:81-126 | error order: unopenable file, then JSON format (before any parsing), then no header row, then missing `login_username`, then missing `fields`; then it fails iff some record is malformed |
| ImportHandler.BwAliasesShaped | src/handlers/import.rs:105-120 | every Bitwarden alias is noted "Used for <alias>", and no alias ends with the suffix |
| ImportHandler.TokenEntriesKeys | src/handlers/import.rs:112-119 | the `fields` tokens insert a key iff one of them, trimmed, ends with the suffix and is kept under that key |
| ImportHandler.RecordEntriesKeys | src/handlers/import.rs:104-120 | a record inserts a key iff its trimmed username or one of its trimmed `fields` tokens yields it |
| ImportHandler.BwEntriesKeys | src/handlers/import.rs:100-121 | a key is in the map the record loop builds iff some record yields it |
| ImportHandler.BwAliasesKeys | src/handlers/import.rs:81-126 | on success, an alias is in the Bitwarden map iff some row's trimmed username or trimmed `fields` token ends with the suffix and yields it (the token with its trailing suffix copies removed) |
| ImportHandler.CollectMapShaped | src/handlers/import.rs:109-117 | collecting inserts of that shape gives a map of that shape |
| ImportHandler.GetAliasesBw | src/handlers/import.rs:81-126 | the method's result equals `BwAliases` on the same export, domain and format |
| ImportHandler.InsertRecords | src/handlers/import.rs:100-121 | the record loop's map is the last-write-wins fold of every username insert and `fields` insert, record by record |
| ImportHandler.InsertUsername | src/handlers/import.rs:105-111 | the username step overrides the map with the record's username alias, if any |
| ImportHandler.InsertRecord | src/handlers/import.rs:104-120 | one pass of the record loop overrides the map with the fold of the record's username insert followed by its `fields` inserts |
| ImportHandler.UnionOfInserts | src/handlers/import.rs:104-120 | overriding with one batch and then another is overriding with the fold of both batches in order |
| ImportHandler.ExtendWithTokens | src/handlers/import.rs:112-120 | `extend` overrides the map with the fold of the tokens' aliases |
| ImportHandler.RecordStep | src/handlers/import.rs:100-121 | adding one record's inserts to the fold of the records before it gives the fold of the records up to and including it |
| ImportHandler.ImportLabel | src/handlers/import.rs:153-156 | the label is "Imported from SimpleLogin" for SimpleLogin and "Imported from Bitwarden" for Bitwarden |
| ImportHandler.CreatePayload | src/handlers/import.rs:165-186 | the body has no id and one forward action to the destination; enabled, priority 0; one `to`/literal matcher on the alias followed by the suffix; a name that is the note, a blank line, then the label |
| ImportHandler.CreateFailure | src/handlers/import.rs:189-198 | a create outcome is non-fatal iff it is a response (any status) or an error with status 409; a fatal one reports the error's status |
| ImportHandler.ConflictTolerated | src/handlers/import.rs:193-196 | a 409 error and any response are tolerated; an error with another status or none is fatal |
| ImportHandler.ImportAliases | src/handlers/import.rs:128-203 | each alias is posted at most once; the import succeeds iff every alias's create outcome is non-fatal, and then every alias was posted; a failure reports the fatal outcome of the last alias posted |
| ImportHandler.ImportHandle | src/handlers/import.rs:21-35 | a parse failure is reported wrapped as a parsing error; otherwise the run succeeds iff every create is non-fatal, and a failure is wrapped as a creation error carrying some alias's fatal outcome |
| Text.TrimStart | src/handlers/import.rs:106 | drops exactly the leading whitespace |
| Text.TrimEnd | src/handlers/import.rs:106 | drops exactly the trailing whitespace |
| Text.Trim | src/handlers/import.rs:114 | the result is a slice of the input with only whitespace before and after it, and it neither starts nor ends with whitespace |
| Text.FindChar | src/handlers/import.rs:75 | finds nothing iff the character is absent; otherwise the index of its first occurrence |
| Text.TrimEndMatches | src/handlers/import.rs:108 | the result is a prefix of the input that no longer ends with the suffix |
| Text.TrimEndMatchesStripsCopies | src/handlers/import.rs:108 | the input is the result followed by a whole number of copies of the suffix, at least one iff the input ended with it |
| Text.Split | src/handlers/import.rs:113 | at least one piece, and no piece contains the separator |
| Text.SplitJoin | src/handlers/import.rs:113 | joining the pieces with the separator gives the input back |
| Text.LowerIsTrue | src/handlers/import.rs:61 | lowercasing gives "true" iff the field is one of the sixteen casings of "true" |
| Text.Decimal | src/handlers/delete.rs:45 | decimal digits only, at least one, with no leading zero |
| Text.DecimalRoundTrip | src/handlers/delete.rs:71 | reading the page number's digits back gives the number |
| DeleteHandler.RuleTarget | src/handlers/delete.rs:63-69 | a rule is a target iff it is not the catch-all (first matcher of type All) and has an id; rules with no matchers are kept |
| DeleteHandler.PageIds | src/handlers/delete.rs:63-69 | an id is contributed by a page iff some rule on it targets that id |
| DeleteHandler.PageQueriesDistinct | src/handlers/delete.rs:44-45 | a query is the `page` pair, whose digits read back as the page number, then `per_page` "50"; two page queries are equal iff their page numbers are |
| DeleteHandler.SearchStop | src/handlers/delete.rs:47-62 | finds the first page from the start on that stops the loop |
| DeleteHandler.FirstStop | src/handlers/delete.rs:47-62 | the page the loop stops on is at least 1 and is the first stopping page |
| DeleteHandler.CollectedMembership | src/handlers/delete.rs:63-69 | the routes collected before page n are exactly the targets listed on pages 1 to n-1 |
| DeleteHandler.ListOutcomeMeaning | src/handlers/delete.rs:55-73 | the listing fails iff its stopping page failed or reported `success: false`, even when that page is empty; otherwise it returns exactly the targets of the earlier pages |
| DeleteHandler.ListRules | src/handlers/delete.rs:44-73 | the loop issues the queries for pages 1, 2, … up to the first stopping page, one each, and returns the listing outcome |
| DeleteHandler.DeleteUrl | src/handlers/delete.rs:81-99 | the URL is the zone's rules URL, a `/`, then the id |
| DeleteHandler.DeleteUrlInjective | src/handlers/delete.rs:99 | different ids are deleted at different URLs |
| DeleteHandler.DeleteFailure | src/handlers/delete.rs:102-104 | a delete outcome is fatal iff it is a transport error or a response with a 4xx or 5xx status, and it reports that status |
| DeleteHandler.DeleteRules | src/handlers/delete.rs:76-108 | each id is deleted at most once; success iff every delete is non-fatal, and then every id was attempted; an empty set succeeds with no requests; a failure reports the last attempt's outcome |
| DeleteHandler.ExplicitTargets | src/handlers/delete.rs:20 | the explicit ids collapse to a set with exactly the ids given, no larger than the list |
| DeleteHandler.DeleteHandle | src/handlers/delete.rs:13-26 | the targets are the listing's output when deleting all, else the given ids; a listing failure is wrapped as a listing error; otherwise it succeeds iff every target's delete is non-fatal, and a failure is wrapped as a deletion error |
| DeleteHandler.ImportedRuleIsTarget | src/handlers/delete.rs:63-68 | a rule made by the importer, once it has an id, is not the catch-all and is a deletion target |

## Left out

- HTTP: sending requests, headers, the API key, and reqwest's internals are foreign calls. Their outcomes are function parameters.
- Concurrency: the fan-out limits (25 creates, 10 deletes) are not modelled. Requests are sent one after another in an unspecified order and stop at the first fatal outcome.
- Operator output: the `println!` status lines are not modelled.
- File I/O and CSV tokenisation: the `csv` crate's parsing is abstracted into `ExportFile`.
- JSON (de)serialisation: not modelled. A list response that fails to parse is an error returned by the fetch function.
- src/args.rs, src/main.rs, src/error.rs and src/utils.rs are not part of this model. Errors are kept as kinds, not messages.
- Text.Lower: lowercases ASCII letters only. This is exact for the comparison with "true", since no other character lowercases to one of its letters.
- ImportHandler.ImportAliases: does not model requests already in flight when another fails. A failure is attributed to the last alias attempted.
- DeleteHandler.DeleteRules: does not model requests already in flight when another fails. A failure is attributed to the last id attempted.
- DeleteHandler.ListRules: requires that some page stops the loop. The source would keep requesting pages forever otherwise, and its `usize` page counter would eventually overflow. Neither is modelled.
- Models.RouteMatcherType: gains an `All` constructor. delete.rs compares against it, but src/models.rs declares only `Literal`.
- ImportHandler.HeaderIndex: the model's `MissingHeader` carries the missing column's name, but the program's message (src/handlers/import.rs:41) is a plain string literal that never fills in `{header_name}`. The program's three SimpleLogin and two Bitwarden missing-header errors are therefore indistinguishable; the model keeps the name only to state which lookup fails first.
