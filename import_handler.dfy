/** Importing aliases as Cloudflare routing rules (src/handlers/import.rs):
    alias extraction from a SimpleLogin or Bitwarden CSV export, the
    create-rule payload, and the rule that decides which create requests are
    fatal. Opening the file and CSV tokenisation are abstracted into
    `ExportFile`; the HTTP client is a function from payload to outcome. */
module ImportHandler {
  import opened Common
  import opened Text
  import opened Models

  const BwUsernameHeader := "login_username"
  const BwFieldsHeader := "fields"
  const SlAliasHeader := "alias"
  const SlEnabledHeader := "enabled"
  const SlNoteHeader := "note"

  datatype ExportFormat = Csv | Json

  datatype ExportSource = SimpleLogin | Bitwarden(format: ExportFormat)

  /** One CSV record as the reader yields it: its fields, or a parse error. */
  datatype CsvRow = Row(fields: seq<string>) | Malformed

  /** The export file: it cannot be opened, or it has a header row (absent
      when the reader fails to read one) followed by records. */
  datatype ExportFile = Unopenable | Opened(headers: Option<seq<string>>, rows: seq<CsvRow>)

  /** The parts of the `import` subcommand the handler reads. */
  datatype ImportCmd = ImportCmd(exportFile: ExportFile, domain: string, destination: string, source: ExportSource)

  /** A Bitwarden suffix: the target domain with its leading `@`. */
  type Suffix = s: string | |s| > 0 witness "@"

  /** An alias entry: local-part and note. */
  type Entry = (string, string)

  /** `StringRecord::get`. */
  function Get(record: seq<string>, i: nat): Option<string> {
    if i < |record| then Some(record[i]) else None
  }

  /** `get_header_index`: the first column named `name`, or an error naming it. */
  function HeaderIndex(headers: seq<string>, name: string): (r: Result<nat>)
    ensures r.Success? <==> name in headers
    ensures r.Success? ==> r.value < |headers| && headers[r.value] == name && name !in headers[..r.value]
    ensures r.Failure? ==> r.error == MissingHeader(name)
  {
    if headers == [] then Failure(MissingHeader(name))
    else if headers[0] == name then Success(0)
    else
      match HeaderIndex(headers[1..], name)
      case Failure(e) => Failure(e)
      case Success(i) =>
        assert headers[..i + 1] == [headers[0]] + headers[1..][..i];
        Success(i + 1)
  }

  /** Collecting the reader's records into a vector: the first malformed record
      fails the whole collection, otherwise every record is kept in order. */
  function CollectRecords(rows: seq<CsvRow>): (r: Result<seq<seq<string>>>)
    ensures r.Failure? <==> exists i :: 0 <= i < |rows| && rows[i].Malformed?
    ensures r.Failure? ==> r.error == MalformedCsv
    ensures r.Success? ==> |r.value| == |rows| && forall i :: 0 <= i < |rows| ==> r.value[i] == rows[i].fields
  {
    if rows == [] then Success([])
    else if rows[0].Malformed? then Failure(MalformedCsv)
    else
      match CollectRecords(rows[1..])
      case Failure(e) => Failure(e)
      case Success(rest) =>
        assert forall i :: 1 <= i < |rows| ==> rows[i] == rows[1..][i - 1];
        Success([rows[0].fields] + rest)
  }

  /** Collecting entries into a `HashMap`: each insert overwrites the key's earlier note. */
  function CollectMap(entries: seq<Entry>): map<string, string> {
    if entries == [] then map[]
    else CollectMap(entries[..|entries| - 1])[entries[|entries| - 1].0 := entries[|entries| - 1].1]
  }

  /** The keys of the collected map are exactly the keys inserted. */
  lemma {:induction false} CollectMapKeys(entries: seq<Entry>, k: string)
    ensures k in CollectMap(entries) <==> exists i :: 0 <= i < |entries| && entries[i].0 == k
  {
    if entries != [] {
      var init := entries[..|entries| - 1];
      CollectMapKeys(init, k);
      assert forall i :: 0 <= i < |init| ==> init[i] == entries[i];
    }
  }

  /** Updating a key after a union is the union with the updated map; stated
      apart so the loop proofs that use it stay small. */
  lemma UnionUpdate(a: map<string, string>, b: map<string, string>, k: string, v: string)
    ensures a + b[k := v] == (a + b)[k := v]
  {
  }

  /** An empty batch of inserts leaves the map alone; stated apart for the same reason. */
  lemma InsertNone(aliases: map<string, string>)
    ensures aliases + CollectMap([]) == aliases
  {
  }

  /** Collecting one more entry updates its key. */
  lemma CollectMapSnoc(entries: seq<Entry>, e: Entry)
    ensures CollectMap(entries + [e]) == CollectMap(entries)[e.0 := e.1]
  {
    assert (entries + [e])[..|entries|] == entries;
  }

  /** `HashMap::extend`: inserting a second batch of entries is a right-biased union. */
  lemma {:induction false} CollectMapAppend(a: seq<Entry>, b: seq<Entry>)
    ensures CollectMap(a + b) == CollectMap(a) + CollectMap(b)
    decreases |b|
  {
    if b != [] {
      var init := b[..|b| - 1];
      var e := b[|b| - 1];
      assert b == init + [e];
      assert a + b == (a + init) + [e];
      CollectMapAppend(a, init);
      CollectMapSnoc(a + init, e);
      CollectMapSnoc(init, e);
    } else {
      assert a + b == a;
    }
  }

  /** Last write wins: an entry no later entry shares a key with decides that key's note. */
  lemma {:induction false} CollectMapLastWins(entries: seq<Entry>, i: nat)
    requires i < |entries|
    requires forall j :: i < j < |entries| ==> entries[j].0 != entries[i].0
    ensures entries[i].0 in CollectMap(entries) && CollectMap(entries)[entries[i].0] == entries[i].1
    decreases |entries|
  {
    if i < |entries| - 1 {
      var init := entries[..|entries| - 1];
      assert init[i] == entries[i];
      assert forall j :: i < j < |init| ==> init[j] == entries[j];
      CollectMapLastWins(init, i);
    }
  }

  /** Whatever the order of the inserts, a map whose every note is a function
      of its key is determined by the set of keys inserted. */
  lemma {:induction false} CollectMapNotesByKey(entries: seq<Entry>, note: string -> string)
    requires forall i :: 0 <= i < |entries| ==> entries[i].1 == note(entries[i].0)
    ensures forall k :: k in CollectMap(entries) ==> CollectMap(entries)[k] == note(k)
    decreases |entries|
  {
    if entries != [] {
      var init := entries[..|entries| - 1];
      assert forall i :: 0 <= i < |init| ==> init[i] == entries[i];
      CollectMapNotesByKey(init, note);
    }
  }

  // ---------------------------------------------------------------- addresses

  /** `remove_domain`: the text before the first `@`, or the whole address. */
  function RemoveDomain(address: string): (r: string)
    ensures '@' !in r
    ensures |r| <= |address| && address[..|r|] == r
    ensures '@' in address ==> |r| < |address| && address[|r|] == '@'
    ensures '@' !in address ==> r == address
  {
    match FindChar(address, '@')
    case Some(index) => address[..index]
    case None => address
  }

  /** The Bitwarden suffix: the domain with exactly one `@` put in front,
      unless it already starts with one. */
  function NormalizeSuffix(domain: string): (r: Suffix)
    ensures r[0] == '@'
    ensures r == domain || r == "@" + domain
    ensures r == domain <==> StartsWith(domain, "@")
  {
    if StartsWith(domain, "@") then domain else "@" + domain
  }

  /** The create payload's domain: at most one leading `@` removed. */
  function StripLeadingAt(domain: string): (r: string)
    ensures r == domain || "@" + r == domain
    ensures r == domain <==> !StartsWith(domain, "@")
  {
    if StartsWith(domain, "@") then domain[1..] else domain
  }

  /** The matched address `{alias}@{domain}` of a created rule. */
  function AliasAddress(alias: string, domain: string): string {
    alias + "@" + StripLeadingAt(domain)
  }

  /** The two normalisations agree: the rule's address is the alias followed
      by exactly the suffix the Bitwarden extractor strips. */
  lemma AddressUsesSuffix(alias: string, domain: string)
    ensures AliasAddress(alias, domain) == alias + NormalizeSuffix(domain)
  {
    if StartsWith(domain, "@") {
      assert domain == "@" + domain[1..];
    }
  }

  /** A SimpleLogin address comes back unchanged from the rule created for it
      exactly when its domain part is the configured domain. */
  lemma SlAddressRoundTrip(address: string, domain: string)
    ensures AliasAddress(RemoveDomain(address), domain) == address <==>
      ('@' in address && address[|RemoveDomain(address)| + 1..] == StripLeadingAt(domain))
  {
    var local := RemoveDomain(address);
    if '@' in address {
      assert address == local + "@" + address[|local| + 1..];
    } else {
      assert AliasAddress(local, domain)[|local|] == '@';
    }
  }

  /** A Bitwarden address comes back from the rule created for it exactly when
      it ended with one copy of the suffix, not two. */
  lemma BwAddressRoundTrip(username: string, domain: string)
    requires EndsWith(username, NormalizeSuffix(domain))
    ensures var suffix := NormalizeSuffix(domain);
      AliasAddress(TrimEndMatches(username, suffix), domain) == username <==>
      !EndsWith(username[..|username| - |suffix|], suffix)
  {
    var suffix := NormalizeSuffix(domain);
    var alias := TrimEndMatches(username, suffix);
    var once := username[..|username| - |suffix|];
    AddressUsesSuffix(alias, domain);
    assert username == once + suffix;
    assert alias == TrimEndMatches(once, suffix);
    if !EndsWith(once, suffix) {
      assert alias == once;
    } else {
      assert alias != once;
      assert |alias + suffix| < |username|;
    }
  }

  // ---------------------------------------------------------------- SimpleLogin

  /** The `enabled` test: lowercase equals "true". */
  predicate IsEnabled(value: string) {
    Lower(value) == "true"
  }

  /** The `filter_map` closure of `get_aliases_sl` for one record. */
  function SlEntry(record: seq<string>, aliasIdx: nat, enabledIdx: nat, noteIdx: nat): Option<Entry> {
    var enabled := Get(record, enabledIdx);
    if enabled.Some? && IsEnabled(enabled.value) then
      match Get(record, aliasIdx)
      case Some(address) => Some((RemoveDomain(address), Get(record, noteIdx).GetOr("")))
      case None => None
    else
      None
  }

  /** A record yields an alias iff its `enabled` field is some casing of "true"
      and it has an `alias` field; the key is the alias without its domain and
      the note is the `note` field or "". */
  lemma SlEntryMeaning(record: seq<string>, aliasIdx: nat, enabledIdx: nat, noteIdx: nat)
    ensures var e := SlEntry(record, aliasIdx, enabledIdx, noteIdx);
      && (e.Some? <==>
           (enabledIdx < |record| && aliasIdx < |record|
            && |record[enabledIdx]| == 4 && record[enabledIdx][0] in "tT" && record[enabledIdx][1] in "rR"
            && record[enabledIdx][2] in "uU" && record[enabledIdx][3] in "eE"))
      && (e.Some? ==> e.value.0 == RemoveDomain(record[aliasIdx])
                      && e.value.1 == (if noteIdx < |record| then record[noteIdx] else ""))
  {
    if enabledIdx < |record| {
      LowerIsTrue(record[enabledIdx]);
    }
  }

  /** The `filter_map` over the records of `get_aliases_sl`. */
  function SlEntries(records: seq<seq<string>>, aliasIdx: nat, enabledIdx: nat, noteIdx: nat): seq<Entry> {
    if records == [] then []
    else
      var last := SlEntry(records[|records| - 1], aliasIdx, enabledIdx, noteIdx);
      SlEntries(records[..|records| - 1], aliasIdx, enabledIdx, noteIdx) + (if last.Some? then [last.value] else [])
  }

  /** The part of `get_aliases_sl` after the header lookups and the record collection. */
  function SlAliases(records: seq<seq<string>>, aliasIdx: nat, enabledIdx: nat, noteIdx: nat): map<string, string> {
    CollectMap(SlEntries(records, aliasIdx, enabledIdx, noteIdx))
  }

  /** `get_aliases_sl`. */
  function GetAliasesSl(file: ExportFile): (r: Result<map<string, string>>)
    ensures file.Unopenable? ==> r == Failure(Io)
    ensures file.Opened? && file.headers.None? ==> r == Failure(NoHeaders)
    ensures file.Opened? && file.headers.Some? ==>
      var h := file.headers.value;
      && (SlAliasHeader !in h ==> r == Failure(MissingHeader(SlAliasHeader)))
      && (SlAliasHeader in h && SlEnabledHeader !in h ==> r == Failure(MissingHeader(SlEnabledHeader)))
      && (SlAliasHeader in h && SlEnabledHeader in h && SlNoteHeader !in h ==> r == Failure(MissingHeader(SlNoteHeader)))
      && (SlAliasHeader in h && SlEnabledHeader in h && SlNoteHeader in h ==>
           (r.Failure? <==> exists i :: 0 <= i < |file.rows| && file.rows[i].Malformed?))
    ensures r.Failure? ==> r.error != UnsupportedFormat
  {
    match file
    case Unopenable => Failure(Io)
    case Opened(headers, rows) =>
      if headers.None? then Failure(NoHeaders)
      else
        var aliasIdx :- HeaderIndex(headers.value, SlAliasHeader);
        var enabledIdx :- HeaderIndex(headers.value, SlEnabledHeader);
        var noteIdx :- HeaderIndex(headers.value, SlNoteHeader);
        var records :- CollectRecords(rows);
        Success(SlAliases(records, aliasIdx, enabledIdx, noteIdx))
  }

  lemma {:induction false} SlEntriesMembership(records: seq<seq<string>>, aliasIdx: nat, enabledIdx: nat, noteIdx: nat, e: Entry)
    ensures e in SlEntries(records, aliasIdx, enabledIdx, noteIdx) <==>
      exists i :: 0 <= i < |records| && SlEntry(records[i], aliasIdx, enabledIdx, noteIdx) == Some(e)
  {
    if records != [] {
      var init := records[..|records| - 1];
      SlEntriesMembership(init, aliasIdx, enabledIdx, noteIdx, e);
      assert forall i :: 0 <= i < |init| ==> init[i] == records[i];
    }
  }

  /** The record yields an entry for the local-part `k`. */
  predicate SlCarries(record: seq<string>, aliasIdx: nat, enabledIdx: nat, noteIdx: nat, k: string) {
    var e := SlEntry(record, aliasIdx, enabledIdx, noteIdx);
    e.Some? && e.value.0 == k
  }

  /** Record `i` yields `(k, note)`, and no later record yields an entry for `k`. */
  predicate SlLastYields(records: seq<seq<string>>, aliasIdx: nat, enabledIdx: nat, noteIdx: nat, k: string, note: string, i: int) {
    && 0 <= i < |records|
    && SlEntry(records[i], aliasIdx, enabledIdx, noteIdx) == Some((k, note))
    && forall j :: i < j < |records| ==> !SlCarries(records[j], aliasIdx, enabledIdx, noteIdx, k)
  }

  /** A SimpleLogin key's note is the one of the last record that yields that key. */
  lemma {:induction false} SlAliasesNote(records: seq<seq<string>>, aliasIdx: nat, enabledIdx: nat, noteIdx: nat, k: string)
    requires k in SlAliases(records, aliasIdx, enabledIdx, noteIdx)
    ensures exists i :: SlLastYields(records, aliasIdx, enabledIdx, noteIdx, k, SlAliases(records, aliasIdx, enabledIdx, noteIdx)[k], i)
  {
    var m := SlAliases(records, aliasIdx, enabledIdx, noteIdx);
    assert records != [];
    var init, last := records[..|records| - 1], records[|records| - 1];
    var le := SlEntry(last, aliasIdx, enabledIdx, noteIdx);
    if SlCarries(last, aliasIdx, enabledIdx, noteIdx, k) {
      assert m[k] == le.value.1 by {
        CollectMapSnoc(SlEntries(init, aliasIdx, enabledIdx, noteIdx), le.value);
      }
      assert SlLastYields(records, aliasIdx, enabledIdx, noteIdx, k, m[k], |records| - 1);
    } else {
      var mi := SlAliases(init, aliasIdx, enabledIdx, noteIdx);
      assert k in mi && m[k] == mi[k] by {
        SlAliasesDrop(records, aliasIdx, enabledIdx, noteIdx, k);
      }
      SlAliasesNote(init, aliasIdx, enabledIdx, noteIdx, k);
      var i :| SlLastYields(init, aliasIdx, enabledIdx, noteIdx, k, mi[k], i);
      SlLastYieldsExtend(records, aliasIdx, enabledIdx, noteIdx, k, m[k], i);
    }
  }

  /** A last record that does not yield `k` leaves `k`'s entry as the other records made it. */
  lemma SlAliasesDrop(records: seq<seq<string>>, aliasIdx: nat, enabledIdx: nat, noteIdx: nat, k: string)
    requires records != []
    requires !SlCarries(records[|records| - 1], aliasIdx, enabledIdx, noteIdx, k)
    ensures var m, mi := SlAliases(records, aliasIdx, enabledIdx, noteIdx), SlAliases(records[..|records| - 1], aliasIdx, enabledIdx, noteIdx);
      (k in m <==> k in mi) && (k in m ==> m[k] == mi[k])
  {
    var before := SlEntries(records[..|records| - 1], aliasIdx, enabledIdx, noteIdx);
    var le := SlEntry(records[|records| - 1], aliasIdx, enabledIdx, noteIdx);
    if le.Some? {
      CollectMapSnoc(before, le.value);
    } else {
      assert before + [] == before;
    }
  }

  lemma SlLastYieldsExtend(records: seq<seq<string>>, aliasIdx: nat, enabledIdx: nat, noteIdx: nat, k: string, note: string, i: int)
    requires records != []
    requires SlLastYields(records[..|records| - 1], aliasIdx, enabledIdx, noteIdx, k, note, i)
    requires !SlCarries(records[|records| - 1], aliasIdx, enabledIdx, noteIdx, k)
    ensures SlLastYields(records, aliasIdx, enabledIdx, noteIdx, k, note, i)
  {
    var init := records[..|records| - 1];
    assert forall j :: 0 <= j < |init| ==> records[j] == init[j];
  }

  /** Which local-parts a SimpleLogin export yields, and with which note: the
      note of the last enabled record that carries that local-part. */
  lemma SlAliasesMeaning(records: seq<seq<string>>, aliasIdx: nat, enabledIdx: nat, noteIdx: nat, k: string)
    ensures var m := SlAliases(records, aliasIdx, enabledIdx, noteIdx);
      && ('@' !in k || k !in m)
      && (k in m <==> exists i :: 0 <= i < |records| && SlEntry(records[i], aliasIdx, enabledIdx, noteIdx).Some?
                                  && SlEntry(records[i], aliasIdx, enabledIdx, noteIdx).value.0 == k)
      && (k in m ==> exists i :: SlLastYields(records, aliasIdx, enabledIdx, noteIdx, k, m[k], i))
  {
    var entries := SlEntries(records, aliasIdx, enabledIdx, noteIdx);
    var m := CollectMap(entries);
    CollectMapKeys(entries, k);
    if k in m {
      SlAliasesNote(records, aliasIdx, enabledIdx, noteIdx, k);
      var j :| 0 <= j < |entries| && entries[j].0 == k;
      SlEntriesMembership(records, aliasIdx, enabledIdx, noteIdx, entries[j]);
      var i :| 0 <= i < |records| && SlEntry(records[i], aliasIdx, enabledIdx, noteIdx) == Some(entries[j]);
      assert '@' !in k;
    }
    if exists i :: 0 <= i < |records| && SlEntry(records[i], aliasIdx, enabledIdx, noteIdx).Some?
                  && SlEntry(records[i], aliasIdx, enabledIdx, noteIdx).value.0 == k {
      var i :| 0 <= i < |records| && SlEntry(records[i], aliasIdx, enabledIdx, noteIdx).Some?
               && SlEntry(records[i], aliasIdx, enabledIdx, noteIdx).value.0 == k;
      var e := SlEntry(records[i], aliasIdx, enabledIdx, noteIdx).value;
      SlEntriesMembership(records, aliasIdx, enabledIdx, noteIdx, e);
      var j :| 0 <= j < |entries| && entries[j] == e;
      assert entries[j].0 == k;
    }
  }

  // ---------------------------------------------------------------- Bitwarden

  function UsedFor(alias: string): string {
    "Used for " + alias
  }

  /** One username or `fields` token: trimmed, and kept when it ends with the
      suffix, with every trailing copy of the suffix removed. */
  function TokenEntry(token: string, suffix: Suffix): (e: Option<Entry>)
    ensures e.Some? ==> e.value.1 == UsedFor(e.value.0) && !EndsWith(e.value.0, suffix)
    ensures e.Some? <==> EndsWith(Trim(token), suffix)
    ensures e.Some? ==> exists k: nat :: k >= 1 && Trim(token) == e.value.0 + Repeat(suffix, k)
  {
    var t := Trim(token);
    if EndsWith(t, suffix) then
      var alias := TrimEndMatches(t, suffix);
      TrimEndMatchesStripsCopies(t, suffix);
      assert t == alias + Repeat(suffix, CopiesStripped(t, suffix));
      Some((alias, UsedFor(alias)))
    else
      None
  }

  /** The `filter_map` over the `fields` tokens. */
  function TokenEntries(tokens: seq<string>, suffix: Suffix): seq<Entry> {
    if tokens == [] then []
    else
      var last := TokenEntry(tokens[|tokens| - 1], suffix);
      TokenEntries(tokens[..|tokens| - 1], suffix) + (if last.Some? then [last.value] else [])
  }

  /** The insert a record's username makes, if any. */
  function UserEntries(record: seq<string>, loginIdx: nat, suffix: Suffix): seq<Entry> {
    match Get(record, loginIdx)
    case Some(username) => var e := TokenEntry(username, suffix); if e.Some? then [e.value] else []
    case None => []
  }

  /** The inserts a record's `fields` column makes: one per space-separated token. */
  function FieldEntries(record: seq<string>, fieldsIdx: nat, suffix: Suffix): seq<Entry> {
    match Get(record, fieldsIdx)
    case Some(blob) => TokenEntries(Split(blob, ' '), suffix)
    case None => []
  }

  /** The inserts one record makes, in order: its username, then its `fields` tokens. */
  function RecordEntries(record: seq<string>, loginIdx: nat, fieldsIdx: nat, suffix: Suffix): seq<Entry> {
    UserEntries(record, loginIdx, suffix) + FieldEntries(record, fieldsIdx, suffix)
  }

  /** Every insert the Bitwarden loop makes, record after record. */
  function BwEntries(records: seq<seq<string>>, loginIdx: nat, fieldsIdx: nat, suffix: Suffix): seq<Entry> {
    if records == [] then []
    else BwEntries(records[..|records| - 1], loginIdx, fieldsIdx, suffix)
         + RecordEntries(records[|records| - 1], loginIdx, fieldsIdx, suffix)
  }

  /** `get_aliases_bw`, stated as a function of the export. */
  function BwAliases(file: ExportFile, domain: string, format: ExportFormat): (r: Result<map<string, string>>)
    ensures file.Unopenable? ==> r == Failure(Io)
    ensures file.Opened? && format == Json ==> r == Failure(UnsupportedFormat)
    ensures file.Opened? && format == Csv && file.headers.None? ==> r == Failure(NoHeaders)
    ensures file.Opened? && format == Csv && file.headers.Some? ==>
      var h := file.headers.value;
      && (BwUsernameHeader !in h ==> r == Failure(MissingHeader(BwUsernameHeader)))
      && (BwUsernameHeader in h && BwFieldsHeader !in h ==> r == Failure(MissingHeader(BwFieldsHeader)))
      && (BwUsernameHeader in h && BwFieldsHeader in h ==>
           (r.Failure? <==> exists i :: 0 <= i < |file.rows| && file.rows[i].Malformed?))
  {
    match file
    case Unopenable => Failure(Io)
    case Opened(headers, rows) =>
      var suffix := NormalizeSuffix(domain);
      match format
      case Json => Failure(UnsupportedFormat)
      case Csv =>
        if headers.None? then Failure(NoHeaders)
        else
          var loginIdx :- HeaderIndex(headers.value, BwUsernameHeader);
          var fieldsIdx :- HeaderIndex(headers.value, BwFieldsHeader);
          var records :- CollectRecords(rows);
          Success(CollectMap(BwEntries(records, loginIdx, fieldsIdx, suffix)))
  }

  lemma TokenEntriesSnoc(tokens: seq<string>, suffix: Suffix, j: nat)
    requires j < |tokens|
    ensures var e := TokenEntry(tokens[j], suffix);
      TokenEntries(tokens[..j + 1], suffix) == TokenEntries(tokens[..j], suffix) + (if e.Some? then [e.value] else [])
  {
    assert tokens[..j + 1][..j] == tokens[..j];
  }

  lemma BwEntriesSnoc(records: seq<seq<string>>, loginIdx: nat, fieldsIdx: nat, suffix: Suffix, i: nat)
    requires i < |records|
    ensures BwEntries(records[..i + 1], loginIdx, fieldsIdx, suffix)
         == BwEntries(records[..i], loginIdx, fieldsIdx, suffix) + RecordEntries(records[i], loginIdx, fieldsIdx, suffix)
  {
    assert records[..i + 1][..i] == records[..i];
  }

  /** A Bitwarden insert is noted "Used for" its key, and the key no longer ends with the suffix. */
  predicate BwShaped(e: Entry, suffix: Suffix) {
    e.1 == UsedFor(e.0) && !EndsWith(e.0, suffix)
  }

  predicate AllBwShaped(entries: seq<Entry>, suffix: Suffix) {
    forall i :: 0 <= i < |entries| ==> BwShaped(entries[i], suffix)
  }

  lemma ShapedAppend(a: seq<Entry>, b: seq<Entry>, suffix: Suffix)
    requires AllBwShaped(a, suffix) && AllBwShaped(b, suffix)
    ensures AllBwShaped(a + b, suffix)
  {
    forall i | 0 <= i < |a + b|
      ensures BwShaped((a + b)[i], suffix)
    {
      if i >= |a| {
        assert (a + b)[i] == b[i - |a|];
      }
    }
  }

  lemma {:induction false} TokenEntriesShaped(tokens: seq<string>, suffix: Suffix)
    ensures AllBwShaped(TokenEntries(tokens, suffix), suffix)
  {
    if tokens != [] {
      var last := TokenEntry(tokens[|tokens| - 1], suffix);
      TokenEntriesShaped(tokens[..|tokens| - 1], suffix);
      ShapedAppend(TokenEntries(tokens[..|tokens| - 1], suffix), if last.Some? then [last.value] else [], suffix);
    }
  }

  lemma {:induction false} BwEntriesShaped(records: seq<seq<string>>, loginIdx: nat, fieldsIdx: nat, suffix: Suffix)
    ensures AllBwShaped(BwEntries(records, loginIdx, fieldsIdx, suffix), suffix)
  {
    if records != [] {
      var last := records[|records| - 1];
      BwEntriesShaped(records[..|records| - 1], loginIdx, fieldsIdx, suffix);
      if fieldsIdx < |last| {
        TokenEntriesShaped(Split(last[fieldsIdx], ' '), suffix);
      }
      assert AllBwShaped(UserEntries(last, loginIdx, suffix), suffix);
      ShapedAppend(UserEntries(last, loginIdx, suffix), FieldEntries(last, fieldsIdx, suffix), suffix);
      ShapedAppend(BwEntries(records[..|records| - 1], loginIdx, fieldsIdx, suffix), RecordEntries(last, loginIdx, fieldsIdx, suffix), suffix);
    }
  }

  /** Collecting well-shaped inserts gives a map whose every note is "Used for" its key. */
  lemma CollectMapShaped(entries: seq<Entry>, suffix: Suffix)
    requires AllBwShaped(entries, suffix)
    ensures forall k :: k in CollectMap(entries) ==> CollectMap(entries)[k] == UsedFor(k) && !EndsWith(k, suffix)
  {
    CollectMapNotesByKey(entries, UsedFor);
    forall k | k in CollectMap(entries)
      ensures !EndsWith(k, suffix)
    {
      CollectMapKeys(entries, k);
      var i :| 0 <= i < |entries| && entries[i].0 == k;
      assert BwShaped(entries[i], suffix);
    }
  }

  /** Whatever the order of the records and tokens, every alias a Bitwarden
      export yields is noted "Used for <alias>", and none ends with the suffix. */
  lemma BwAliasesShaped(file: ExportFile, domain: string, format: ExportFormat)
    ensures var r := BwAliases(file, domain, format);
      r.Success? ==> forall k :: k in r.value ==> r.value[k] == UsedFor(k) && !EndsWith(k, NormalizeSuffix(domain))
  {
    if BwAliases(file, domain, format).Success? {
      var h := file.headers.value;
      var loginIdx, fieldsIdx := HeaderIndex(h, BwUsernameHeader).value, HeaderIndex(h, BwFieldsHeader).value;
      var records := CollectRecords(file.rows).value;
      BwEntriesShaped(records, loginIdx, fieldsIdx, NormalizeSuffix(domain));
      CollectMapShaped(BwEntries(records, loginIdx, fieldsIdx, NormalizeSuffix(domain)), NormalizeSuffix(domain));
    }
  }

  /** Some insert in `entries` carries the key `k`. */
  predicate Inserts(entries: seq<Entry>, k: string) {
    exists i :: 0 <= i < |entries| && entries[i].0 == k
  }

  lemma InsertsAppend(a: seq<Entry>, b: seq<Entry>, k: string)
    ensures Inserts(a + b, k) <==> Inserts(a, k) || Inserts(b, k)
  {
    if Inserts(a + b, k) {
      var i :| 0 <= i < |a + b| && (a + b)[i].0 == k;
      if i < |a| {
        assert a[i] == (a + b)[i];
      } else {
        assert b[i - |a|] == (a + b)[i];
      }
    }
    if Inserts(a, k) {
      var i :| 0 <= i < |a| && a[i].0 == k;
      assert (a + b)[i] == a[i];
    }
    if Inserts(b, k) {
      var i :| 0 <= i < |b| && b[i].0 == k;
      assert (a + b)[|a| + i] == b[i];
    }
  }

  /** The token, trimmed, ends with the suffix and is kept under the key `k`. */
  predicate TokenYields(token: string, suffix: Suffix, k: string) {
    TokenEntry(token, suffix).Some? && TokenEntry(token, suffix).value.0 == k
  }

  predicate SomeTokenYields(tokens: seq<string>, suffix: Suffix, k: string) {
    exists j :: 0 <= j < |tokens| && TokenYields(tokens[j], suffix, k)
  }

  lemma SomeTokenYieldsSnoc(tokens: seq<string>, suffix: Suffix, k: string)
    requires tokens != []
    ensures SomeTokenYields(tokens, suffix, k)
        <==> SomeTokenYields(tokens[..|tokens| - 1], suffix, k) || TokenYields(tokens[|tokens| - 1], suffix, k)
  {
    ExistsSnoc(tokens, tokens[..|tokens| - 1], t => TokenYields(t, suffix, k));
  }

  /** The `fields` tokens insert the key `k` iff one of them yields it. */
  lemma {:induction false} TokenEntriesKeys(tokens: seq<string>, suffix: Suffix, k: string)
    ensures Inserts(TokenEntries(tokens, suffix), k) <==> SomeTokenYields(tokens, suffix, k)
  {
    if tokens != [] {
      var init := tokens[..|tokens| - 1];
      var last := TokenEntry(tokens[|tokens| - 1], suffix);
      var tail := if last.Some? then [last.value] else [];
      assert TokenEntries(tokens, suffix) == TokenEntries(init, suffix) + tail;
      TokenEntriesKeys(init, suffix, k);
      InsertsAppend(TokenEntries(init, suffix), tail, k);
      InsertsOption(last, k);
      SomeTokenYieldsSnoc(tokens, suffix, k);
    }
  }

  /** At most one insert carries `k` exactly when it is present with that key. */
  lemma InsertsOption(e: Option<Entry>, k: string)
    ensures Inserts(if e.Some? then [e.value] else [], k) <==> e.Some? && e.value.0 == k
  {
    if e.Some? && e.value.0 == k {
      assert [e.value][0].0 == k;
    }
  }

  /** A record yields the key `k`: through its username, or through one of the
      space-separated tokens of its `fields` column. */
  predicate RecordYields(record: seq<string>, loginIdx: nat, fieldsIdx: nat, suffix: Suffix, k: string) {
    || (loginIdx < |record| && TokenYields(record[loginIdx], suffix, k))
    || (fieldsIdx < |record| && SomeTokenYields(Split(record[fieldsIdx], ' '), suffix, k))
  }

  lemma RecordEntriesKeys(record: seq<string>, loginIdx: nat, fieldsIdx: nat, suffix: Suffix, k: string)
    ensures Inserts(RecordEntries(record, loginIdx, fieldsIdx, suffix), k) <==> RecordYields(record, loginIdx, fieldsIdx, suffix, k)
  {
    var user := UserEntries(record, loginIdx, suffix);
    InsertsAppend(user, FieldEntries(record, fieldsIdx, suffix), k);
    if Inserts(user, k) {
      assert user[0].0 == k;
    }
    if loginIdx < |record| && TokenYields(record[loginIdx], suffix, k) {
      assert user[0].0 == k;
    }
    if fieldsIdx < |record| {
      TokenEntriesKeys(Split(record[fieldsIdx], ' '), suffix, k);
    }
  }

  predicate SomeRecordYields(records: seq<seq<string>>, loginIdx: nat, fieldsIdx: nat, suffix: Suffix, k: string) {
    exists i :: 0 <= i < |records| && RecordYields(records[i], loginIdx, fieldsIdx, suffix, k)
  }

  lemma SomeRecordYieldsSnoc(records: seq<seq<string>>, loginIdx: nat, fieldsIdx: nat, suffix: Suffix, k: string)
    requires records != []
    ensures SomeRecordYields(records, loginIdx, fieldsIdx, suffix, k)
        <==> SomeRecordYields(records[..|records| - 1], loginIdx, fieldsIdx, suffix, k)
             || RecordYields(records[|records| - 1], loginIdx, fieldsIdx, suffix, k)
  {
    ExistsSnoc(records, records[..|records| - 1], r => RecordYields(r, loginIdx, fieldsIdx, suffix, k));
  }

  /** The Bitwarden loop inserts the key `k` iff some record yields it. */
  lemma {:induction false} BwEntriesKeys(records: seq<seq<string>>, loginIdx: nat, fieldsIdx: nat, suffix: Suffix, k: string)
    ensures k in CollectMap(BwEntries(records, loginIdx, fieldsIdx, suffix))
        <==> SomeRecordYields(records, loginIdx, fieldsIdx, suffix, k)
  {
    CollectMapKeys(BwEntries(records, loginIdx, fieldsIdx, suffix), k);
    BwEntriesInserts(records, loginIdx, fieldsIdx, suffix, k);
  }

  lemma {:induction false} BwEntriesInserts(records: seq<seq<string>>, loginIdx: nat, fieldsIdx: nat, suffix: Suffix, k: string)
    ensures Inserts(BwEntries(records, loginIdx, fieldsIdx, suffix), k) <==> SomeRecordYields(records, loginIdx, fieldsIdx, suffix, k)
  {
    if records != [] {
      var init := records[..|records| - 1];
      BwEntriesInserts(init, loginIdx, fieldsIdx, suffix, k);
      InsertsAppend(BwEntries(init, loginIdx, fieldsIdx, suffix), RecordEntries(records[|records| - 1], loginIdx, fieldsIdx, suffix), k);
      RecordEntriesKeys(records[|records| - 1], loginIdx, fieldsIdx, suffix, k);
      SomeRecordYieldsSnoc(records, loginIdx, fieldsIdx, suffix, k);
    }
  }

  /** Which aliases a Bitwarden CSV export yields: exactly the keys of the
      trimmed usernames and trimmed `fields` tokens, in any row, that end with
      the suffix (each key being that text with its trailing suffix copies
      removed, as `TokenEntry` states). */
  lemma BwAliasesKeys(file: ExportFile, domain: string, format: ExportFormat, k: string)
    ensures var r := BwAliases(file, domain, format);
      r.Success? ==>
        && file.Opened? && file.headers.Some?
        && BwUsernameHeader in file.headers.value && BwFieldsHeader in file.headers.value
        && (k in r.value <==>
             exists i :: 0 <= i < |file.rows| && file.rows[i].Row?
               && RecordYields(file.rows[i].fields, HeaderIndex(file.headers.value, BwUsernameHeader).value,
                               HeaderIndex(file.headers.value, BwFieldsHeader).value, NormalizeSuffix(domain), k))
  {
    if BwAliases(file, domain, format).Success? {
      var h := file.headers.value;
      var loginIdx, fieldsIdx := HeaderIndex(h, BwUsernameHeader).value, HeaderIndex(h, BwFieldsHeader).value;
      var records := CollectRecords(file.rows).value;
      BwEntriesKeys(records, loginIdx, fieldsIdx, NormalizeSuffix(domain), k);
      if k in BwAliases(file, domain, format).value {
        var i :| 0 <= i < |records| && RecordYields(records[i], loginIdx, fieldsIdx, NormalizeSuffix(domain), k);
        assert file.rows[i].Row?;
      }
    }
  }

  /** `get_aliases_bw`: opens the file, normalises the domain, rejects JSON,
      resolves both columns, then runs the record loop. */
  method GetAliasesBw(file: ExportFile, domain: string, format: ExportFormat) returns (r: Result<map<string, string>>)
    ensures r == BwAliases(file, domain, format)
  {
    if file.Unopenable? {
      return Failure(Io);
    }
    var suffix := NormalizeSuffix(domain);
    if format == Json {
      return Failure(UnsupportedFormat);
    }
    if file.headers.None? {
      return Failure(NoHeaders);
    }
    var loginIdx :- HeaderIndex(file.headers.value, BwUsernameHeader);
    var fieldsIdx :- HeaderIndex(file.headers.value, BwFieldsHeader);
    var records :- CollectRecords(file.rows);
    var aliases := InsertRecords(records, loginIdx, fieldsIdx, suffix);
    r := Success(aliases);
  }

  /** The `for record in ...` loop of `get_aliases_bw`: per record, the
      username alias is inserted first, then the map is extended with the
      aliases among the `fields` tokens. */
  method InsertRecords(records: seq<seq<string>>, loginIdx: nat, fieldsIdx: nat, suffix: Suffix)
    returns (aliases: map<string, string>)
    ensures aliases == CollectMap(BwEntries(records, loginIdx, fieldsIdx, suffix))
  {
    aliases := map[];
    for i := 0 to |records|
      invariant aliases == CollectMap(BwEntries(records[..i], loginIdx, fieldsIdx, suffix))
    {
      ghost var before := aliases;
      aliases := InsertRecord(aliases, records[i], loginIdx, fieldsIdx, suffix);
      RecordStep(records, loginIdx, fieldsIdx, suffix, i, before, aliases);
    }
    assert records[..|records|] == records;
  }

  /** One pass of the record loop: the username insert, then the `fields` extend. */
  method InsertRecord(aliases: map<string, string>, record: seq<string>, loginIdx: nat, fieldsIdx: nat, suffix: Suffix)
    returns (m: map<string, string>)
    ensures m == aliases + CollectMap(RecordEntries(record, loginIdx, fieldsIdx, suffix))
  {
    m := InsertUsername(aliases, record, loginIdx, suffix);
    ghost var afterUser := m;
    if fieldsIdx < |record| {
      m := ExtendWithTokens(m, Split(record[fieldsIdx], ' '), suffix);
    } else {
      assert FieldEntries(record, fieldsIdx, suffix) == [];
      InsertNone(m);
    }
    UnionOfInserts(aliases, UserEntries(record, loginIdx, suffix), FieldEntries(record, fieldsIdx, suffix), afterUser, m);
  }

  /** Two batches of inserts, one after the other, override the map with their concatenation. */
  lemma UnionOfInserts(aliases: map<string, string>, a: seq<Entry>, b: seq<Entry>,
                       afterA: map<string, string>, afterB: map<string, string>)
    requires afterA == aliases + CollectMap(a)
    requires afterB == afterA + CollectMap(b)
    ensures afterB == aliases + CollectMap(a + b)
  {
    CollectMapAppend(a, b);
  }

  /** The username half of one pass: `if let Some(username) = record.get(..)`,
      trimmed, inserted with its suffix copies stripped when it ends with the suffix. */
  method InsertUsername(aliases: map<string, string>, record: seq<string>, loginIdx: nat, suffix: Suffix)
    returns (m: map<string, string>)
    ensures m == aliases + CollectMap(UserEntries(record, loginIdx, suffix))
  {
    m := aliases;
    if loginIdx < |record| {
      var username := Trim(record[loginIdx]);
      if EndsWith(username, suffix) {
        var alias := TrimEndMatches(username, suffix);
        m := m[alias := UsedFor(alias)];
        assert UserEntries(record, loginIdx, suffix) == [(alias, UsedFor(alias))];
        InsertOne(aliases, (alias, UsedFor(alias)));
      } else {
        assert UserEntries(record, loginIdx, suffix) == [];
        assert aliases + CollectMap([]) == aliases;
      }
    } else {
      assert UserEntries(record, loginIdx, suffix) == [];
      assert aliases + CollectMap([]) == aliases;
    }
  }

  lemma InsertOne(aliases: map<string, string>, e: Entry)
    ensures aliases + CollectMap([e]) == aliases[e.0 := e.1]
  {
    assert CollectMap([e]) == map[e.0 := e.1] by {
      assert [e][..0] == [];
    }
  }

  /** One pass of the record loop keeps the map equal to the collected inserts. */
  lemma RecordStep(records: seq<seq<string>>, loginIdx: nat, fieldsIdx: nat, suffix: Suffix, i: nat,
                   before: map<string, string>, after: map<string, string>)
    requires i < |records|
    requires before == CollectMap(BwEntries(records[..i], loginIdx, fieldsIdx, suffix))
    requires after == before + CollectMap(RecordEntries(records[i], loginIdx, fieldsIdx, suffix))
    ensures after == CollectMap(BwEntries(records[..i + 1], loginIdx, fieldsIdx, suffix))
  {
    CollectMapAppend(BwEntries(records[..i], loginIdx, fieldsIdx, suffix), RecordEntries(records[i], loginIdx, fieldsIdx, suffix));
    BwEntriesSnoc(records, loginIdx, fieldsIdx, suffix, i);
  }

  /** `aliases.extend(fields.split(' ').filter_map(...))`: each token that ends
      with the suffix is inserted in turn, so the result is the old map
      overridden by the tokens' entries. */
  method ExtendWithTokens(aliases: map<string, string>, tokens: seq<string>, suffix: Suffix)
    returns (extended: map<string, string>)
    ensures extended == aliases + CollectMap(TokenEntries(tokens, suffix))
  {
    extended := aliases;
    for j := 0 to |tokens|
      invariant extended == aliases + CollectMap(TokenEntries(tokens[..j], suffix))
    {
      ghost var before := TokenEntries(tokens[..j], suffix);
      TokenEntriesSnoc(tokens, suffix, j);
      var field := Trim(tokens[j]);
      if EndsWith(field, suffix) {
        var alias := TrimEndMatches(field, suffix);
        assert TokenEntries(tokens[..j + 1], suffix) == before + [(alias, UsedFor(alias))];
        CollectMapSnoc(before, (alias, UsedFor(alias)));
        UnionUpdate(aliases, CollectMap(before), alias, UsedFor(alias));
        extended := extended[alias := UsedFor(alias)];
      } else {
        assert TokenEntries(tokens[..j + 1], suffix) == before + [];
        assert before + [] == before;
      }
    }
    assert tokens[..|tokens|] == tokens;
  }

  // ---------------------------------------------------------------- creating rules

  /** The provenance line put under each rule's note. */
  function ImportLabel(source: ExportSource): (r: string)
    ensures source.SimpleLogin? <==> r == "Imported from SimpleLogin"
    ensures source.Bitwarden? <==> r == "Imported from Bitwarden"
  {
    match source
    case SimpleLogin => "Imported from SimpleLogin"
    case Bitwarden(_) => "Imported from Bitwarden"
  }

  /** The JSON body posted for one alias: forward `{alias}@{domain}` to the
      destination, enabled, priority 0, named after the note and the source. */
  function CreatePayload(cmd: ImportCmd, alias: string, note: string): (rule: RoutingRule)
    ensures rule.id.None? && rule.enabled == Some(true) && rule.priority == Some(0)
    ensures rule.actions == [RouteAction(Forward, [cmd.destination])]
    ensures |rule.matchers| == 1 && rule.matchers[0].field == To && rule.matchers[0].kind == Literal
    ensures rule.matchers[0].value == alias + NormalizeSuffix(cmd.domain)
    ensures rule.name.Some? && |note| <= |rule.name.value| && rule.name.value[..|note|] == note
    ensures rule.name.value[|note|..] == "\n\n" + ImportLabel(cmd.source)
  {
    AddressUsesSuffix(alias, cmd.domain);
    var name := note + "\n\n" + ImportLabel(cmd.source);
    assert name[..|note|] == note && name[|note|..] == "\n\n" + ImportLabel(cmd.source);
    RoutingRule(
      [RouteAction(Forward, [cmd.destination])],
      Some(true),
      None,
      [RouteMatcher(To, Literal, AliasAddress(alias, cmd.domain))],
      Some(name),
      Some(0))
  }

  /** Whether a create request's outcome aborts the import: a response of any
      status does not; a client error does unless it carries status 409. */
  function CreateFailure(outcome: SendResult): (r: Option<Error>)
    ensures r.None? <==> (outcome.Response? || outcome.status == Some(409))
    ensures r.Some? ==> r.value == Http(outcome.status) && outcome.status != Some(409)
  {
    match outcome
    case Response(_) => None
    case SendError(status) => if status == Some(409) then None else Some(Http(status))
  }

  /** An alias that already exists remotely (a 409) never aborts the import,
      and neither does any status the server answers with. */
  lemma ConflictTolerated(code: nat)
    ensures CreateFailure(SendError(Some(409))).None?
    ensures CreateFailure(Response(code)).None?
    ensures code != 409 ==> CreateFailure(SendError(Some(code))) == Some(Http(Some(code)))
    ensures CreateFailure(SendError(None)) == Some(Http(None))
  {
  }

  /** The outcome of posting the rule for `alias`. */
  function CreateOutcome(aliases: map<string, string>, cmd: ImportCmd, zone: string,
                         send: (string, RoutingRule) -> SendResult, alias: string): SendResult
    requires alias in aliases
  {
    send(RulesUrl(zone), CreatePayload(cmd, alias, aliases[alias]))
  }

  /** Creating the rule for `alias` does not abort the import. */
  predicate Tolerated(aliases: map<string, string>, cmd: ImportCmd, zone: string,
                      send: (string, RoutingRule) -> SendResult, alias: string)
    requires alias in aliases
  {
    CreateFailure(CreateOutcome(aliases, cmd, zone, send, alias)).None?
  }

  /** `import_aliases`: one create request per alias, stopping at the first
      fatal outcome. The concurrent fan-out is modelled as a sequence of
      requests in an unspecified order; `attempted` is that order. */
  method ImportAliases(aliases: map<string, string>, cmd: ImportCmd, zone: string,
                       send: (string, RoutingRule) -> SendResult)
    returns (r: Result<()>, attempted: seq<string>)
    ensures Distinct(attempted) && forall i :: 0 <= i < |attempted| ==> attempted[i] in aliases
    ensures r.Success? <==> forall k :: k in aliases ==> Tolerated(aliases, cmd, zone, send, k)
    ensures r.Success? ==> forall k :: k in aliases ==> k in attempted
    ensures r.Failure? ==>
      (|attempted| > 0 && CreateFailure(CreateOutcome(aliases, cmd, zone, send, attempted[|attempted| - 1])) == Some(r.error))
    ensures forall i :: 0 <= i < |attempted| - 1 ==> Tolerated(aliases, cmd, zone, send, attempted[i])
  {
    var url := RulesUrl(zone);
    var remaining := aliases.Keys;
    attempted := [];
    while remaining != {}
      invariant FanOut(aliases.Keys, remaining, attempted)
      invariant forall i :: 0 <= i < |attempted| ==> Tolerated(aliases, cmd, zone, send, attempted[i])
      decreases |remaining|
    {
      var alias :| alias in remaining;
      var outcome := send(url, CreatePayload(cmd, alias, aliases[alias]));
      FanOutStep(aliases.Keys, remaining, attempted, alias);
      attempted := attempted + [alias];
      remaining := remaining - {alias};
      var failure := CreateFailure(outcome);
      if failure.Some? {
        assert !Tolerated(aliases, cmd, zone, send, alias);
        return Failure(failure.value), attempted;
      }
      assert Tolerated(aliases, cmd, zone, send, alias);
    }
    r := Success(());
  }

  /** The aliases an import command parses, whichever export it reads. */
  function ParsedAliases(cmd: ImportCmd): Result<map<string, string>> {
    match cmd.source
    case SimpleLogin => GetAliasesSl(cmd.exportFile)
    case Bitwarden(format) => BwAliases(cmd.exportFile, cmd.domain, format)
  }

  /** `handle` for `import`: parse the export, then create the rules; a failure
      of either phase is reported wrapped with that phase. */
  method ImportHandle(cmd: ImportCmd, zone: string, send: (string, RoutingRule) -> SendResult)
    returns (r: Result<()>)
    ensures ParsedAliases(cmd).Failure? ==> r == Failure(Context(ParsingAliases, ParsedAliases(cmd).error))
    ensures ParsedAliases(cmd).Success? ==>
      var aliases := ParsedAliases(cmd).value;
      && (r.Success? <==> forall k :: k in aliases ==> Tolerated(aliases, cmd, zone, send, k))
      && (r.Failure? ==> r.error.Context? && r.error.phase == CreatingAliases
                         && exists k :: k in aliases && CreateFailure(CreateOutcome(aliases, cmd, zone, send, k)) == Some(r.error.cause))
  {
    var parsed: Result<map<string, string>>;
    match cmd.source {
      case SimpleLogin =>
        parsed := GetAliasesSl(cmd.exportFile);
      case Bitwarden(format) =>
        parsed := GetAliasesBw(cmd.exportFile, cmd.domain, format);
    }
    if parsed.Failure? {
      return Failure(Context(ParsingAliases, parsed.error));
    }
    var created, attempted := ImportAliases(parsed.value, cmd, zone, send);
    if created.Failure? {
      return Failure(Context(CreatingAliases, created.error));
    }
    r := Success(());
  }
}
