/**
 The field-encryption keyring and the text envelopes it reads and writes.

 The cipher is a parameter: `seal` and `open` stand for authenticated encryption of a text under a key and a
 nonce, and the only thing assumed of them is that opening what was sealed gives the text back.
 */
module FieldEncryption {
  import opened Wrappers
  import opened Base64
  import opened Text

  type Bytes = seq<Byte>

  const KEY_BYTES := 32
  const NONCE_BYTES := 12
  const PREFIX := "enc:v1:"

  datatype Keyring = Keyring(keys: map<string, Bytes>, active: string)

  datatype ConfigError =
    | KeysMissing | ActiveMissing | EmptyEntry | NoColon | BadKeyId | DuplicateId | BadBase64 | BadKeyLength
    | DuplicateMaterial | ActiveUnknown

  predicate IsIdChar(c: char) {
    'A' <= c <= 'Z' || 'a' <= c <= 'z' || '0' <= c <= '9' || c == '_' || c == '.' || c == '-'
  }

  predicate ValidId(id: string) {
    1 <= |id| <= 64 && forall k :: 0 <= k < |id| ==> IsIdChar(id[k])
  }

  // ---- parsing a keyring ----

  function DecodeKey(raw: string): Result<Bytes, ConfigError> {
    match Base64.Decode(raw)
    case None => Err(BadBase64)
    case Some(key) => if |key| != KEY_BYTES then Err(BadKeyLength) else Ok(key)
  }

  /** An id and the base64 of its key, checked against the entries before them. */
  function ParsePair(id: string, rawKey: string, keys: map<string, Bytes>): Result<(string, Bytes), ConfigError> {
    if !ValidId(id) then Err(BadKeyId)
    else if id in keys then Err(DuplicateId)
    else
      match DecodeKey(rawKey)
      case Err(e) => Err(e)
      case Ok(key) => if key in keys.Values then Err(DuplicateMaterial) else Ok((id, key))
  }

  /** One `key_id:base64_key` entry, cut at its first colon. */
  function ParseEntry(raw: string, keys: map<string, Bytes>): Result<(string, Bytes), ConfigError> {
    var entry := Strip(raw);
    if entry == "" then Err(EmptyEntry)
    else if Cut(entry, ':') == |entry| then Err(NoColon)
    else ParsePair(Strip(entry[..Cut(entry, ':')]), Strip(entry[Cut(entry, ':') + 1..]), keys)
  }

  lemma PairIff(left: string, right: string, keys: map<string, Bytes>, id: string, key: Bytes)
    ensures ParsePair(left, right, keys) == Ok((id, key)) <==>
            && left == id && ValidId(id) && id !in keys
            && Base64.Decode(right) == Some(key) && |key| == 32 && key !in keys.Values
  {
  }

  function ParseEntries(entries: seq<string>, keys: map<string, Bytes>): Result<map<string, Bytes>, ConfigError> {
    if entries == [] then Ok(keys)
    else
      match ParseEntry(entries[0], keys)
      case Err(e) => Err(e)
      case Ok((id, key)) => ParseEntries(entries[1..], keys[id := key])
  }

  function Parse(raw: Option<string>, active: Option<string>): Result<Keyring, ConfigError> {
    if raw.None? || Strip(raw.value) == "" then Err(KeysMissing)
    else if active.None? || Strip(active.value) == "" then Err(ActiveMissing)
    else
      match ParseEntries(Split(raw.value, ','), map[])
      case Err(e) => Err(e)
      case Ok(keys) =>
        if Strip(active.value) in keys then Ok(Keyring(keys, Strip(active.value))) else Err(ActiveUnknown)
  }

  /** The parser's loop, with its second dictionary from key material to id. */
  method ParseKeyring(raw: Option<string>, active: Option<string>) returns (r: Result<Keyring, ConfigError>)
    ensures r == Parse(raw, active)
  {
    if raw.None? || Strip(raw.value) == "" { return Err(KeysMissing); }
    if active.None? || Strip(active.value) == "" { return Err(ActiveMissing); }
    var keys: map<string, Bytes> := map[];
    var keyMaterialIds: map<Bytes, string> := map[];
    var entries := Split(raw.value, ',');
    for i := 0 to |entries|
      invariant ParseEntries(entries, map[]) == ParseEntries(entries[i..], keys)
      invariant keyMaterialIds.Keys == keys.Values
    {
      var entry := Strip(entries[i]);
      NextEntry(entries, i, keys);
      if entry == "" { return Err(EmptyEntry); }
      var colon := Cut(entry, ':');
      if colon == |entry| { return Err(NoColon); }
      var id, rawKey := Strip(entry[..colon]), Strip(entry[colon + 1..]);
      if !ValidId(id) { return Err(BadKeyId); }
      if id in keys { return Err(DuplicateId); }
      var decoded := DecodeKey(rawKey);
      if decoded.Err? { return Err(decoded.error); }
      if decoded.value in keyMaterialIds { return Err(DuplicateMaterial); }
      ValuesGrow(keys, id, decoded.value);
      keys := keys[id := decoded.value];
      keyMaterialIds := keyMaterialIds[decoded.value := id];
    }
    if Strip(active.value) !in keys { return Err(ActiveUnknown); }
    return Ok(Keyring(keys, Strip(active.value)));
  }

  lemma NextEntry(entries: seq<string>, i: nat, keys: map<string, Bytes>)
    requires i < |entries|
    ensures ParseEntries(entries[i..], keys) ==
            match ParseEntry(entries[i], keys)
            case Err(e) => Err(e)
            case Ok((id, key)) => ParseEntries(entries[i + 1..], keys[id := key])
  {
    assert entries[i..][0] == entries[i] && entries[i..][1..] == entries[i + 1..];
  }

  lemma ValuesGrow(keys: map<string, Bytes>, id: string, key: Bytes)
    requires id !in keys
    ensures keys[id := key].Values == keys.Values + {key}
  {
    var keys' := keys[id := key];
    forall v ensures v in keys'.Values <==> v in keys.Values + {key} {
      if v in keys.Values {
        var i :| i in keys && keys[i] == v;
        assert keys'[i] == v;
      }
      assert keys'[id] == key;
    }
  }

  // ---- what an accepted keyring is like ----

  ghost predicate GoodKeys(keys: map<string, Bytes>) {
    && (forall id :: id in keys ==> ValidId(id) && |keys[id]| == 32)
    && (forall i, j :: i in keys && j in keys && keys[i] == keys[j] ==> i == j)
  }

  ghost predicate WellFormed(ring: Keyring) {
    GoodKeys(ring.keys) && ring.active in ring.keys
  }

  lemma {:induction false} EntriesKeepGood(entries: seq<string>, keys: map<string, Bytes>)
    requires GoodKeys(keys) && ParseEntries(entries, keys).Ok?
    ensures GoodKeys(ParseEntries(entries, keys).value)
    ensures forall id :: id in keys ==>
      id in ParseEntries(entries, keys).value && ParseEntries(entries, keys).value[id] == keys[id]
    decreases |entries|
  {
    if entries == [] {
    } else {
      var (id, key) := ParseEntry(entries[0], keys).value;
      ParsedEntryIsGood(entries[0], keys, id, key);
      OneMoreIsGood(keys, id, key);
      EntriesKeepGood(entries[1..], keys[id := key]);
    }
  }

  lemma ParsedEntryIsGood(entry: string, keys: map<string, Bytes>, id: string, key: Bytes)
    requires ParseEntry(entry, keys) == Ok((id, key))
    ensures ValidId(id) && |key| == 32 && id !in keys && key !in keys.Values
  {
    ParsedParts(entry, Strip(entry), Cut(Strip(entry), ':'), keys, id, key);
  }

  lemma OneMoreIsGood(keys: map<string, Bytes>, id: string, key: Bytes)
    requires GoodKeys(keys) && ValidId(id) && |key| == 32 && id !in keys && key !in keys.Values
    ensures GoodKeys(keys[id := key])
  {
    assert forall j :: j in keys ==> keys[j] in keys.Values;
  }

  /** Distinct ids hold distinct keys, ids and keys have their proper form, and the active id is one of them. */
  lemma AcceptedIsWellFormed(raw: Option<string>, active: Option<string>)
    requires Parse(raw, active).Ok?
    ensures WellFormed(Parse(raw, active).value)
  {
    EntriesKeepGood(Split(raw.value, ','), map[]);
  }

  // ---- exactly which configurations are accepted ----

  /** The characters of a key id by their codes: digits, letters, `-`, `.` and `_`. */
  lemma IdChars(c: char)
    ensures var n := c as int;
            IsIdChar(c) <==> 48 <= n <= 57 || 65 <= n <= 90 || 97 <= n <= 122 || n == 45 || n == 46 || n == 95
  {
  }

  /** Around its first colon, and apart from whitespace, the entry has a valid id and the base64 of a 32-byte key. */
  ghost predicate ReadsAs(entry: string, id: string, key: Bytes) {
    exists left: string, right: string :: ReadsAround(entry, left, right, id, key)
  }

  predicate ReadsAround(entry: string, left: string, right: string, id: string, key: Bytes) {
    && Strip(entry) == left + ":" + right && (forall k :: 0 <= k < |left| ==> left[k] != ':')
    && Strip(left) == id && ValidId(id)
    && Base64.Decode(Strip(right)) == Some(key) && |key| == 32
  }

  lemma ParseEntryIff(entry: string, keys: map<string, Bytes>, id: string, key: Bytes)
    ensures ParseEntry(entry, keys) == Ok((id, key)) <==> ReadsAs(entry, id, key) && id !in keys && key !in keys.Values
  {
    if ParseEntry(entry, keys) == Ok((id, key)) {
      ParsedReads(entry, keys, id, key);
    }
    if ReadsAs(entry, id, key) && id !in keys && key !in keys.Values {
      ReadParses(entry, keys, id, key);
    }
  }

  lemma ParsedReads(entry: string, keys: map<string, Bytes>, id: string, key: Bytes)
    requires ParseEntry(entry, keys) == Ok((id, key))
    ensures ReadsAs(entry, id, key) && id !in keys && key !in keys.Values
  {
    var text := Strip(entry);
    var n := Cut(text, ':');
    ParsedParts(entry, text, n, keys, id, key);
    PartsRead(entry, text, n, id, key);
  }

  lemma PartsRead(entry: string, text: string, n: nat, id: string, key: Bytes)
    requires Strip(entry) == text && n < |text| && text[n] == ':' && forall k :: 0 <= k < n ==> text[k] != ':'
    requires Strip(text[..n]) == id && ValidId(id) && Base64.Decode(Strip(text[n + 1..])) == Some(key) && |key| == 32
    ensures ReadsAs(entry, id, key)
  {
    assert text == text[..n] + ":" + text[n + 1..];
    assert ReadsAround(entry, text[..n], text[n + 1..], id, key);
  }

  lemma ParsedParts(entry: string, text: string, n: nat, keys: map<string, Bytes>, id: string, key: Bytes)
    requires ParseEntry(entry, keys) == Ok((id, key)) && text == Strip(entry) && n == Cut(text, ':')
    ensures n < |text| && Strip(text[..n]) == id && ValidId(id) && id !in keys && key !in keys.Values
    ensures Base64.Decode(Strip(text[n + 1..])) == Some(key) && |key| == 32
  {
    PairIff(Strip(text[..n]), Strip(text[n + 1..]), keys, id, key);
  }

  lemma ReadParses(entry: string, keys: map<string, Bytes>, id: string, key: Bytes)
    requires ReadsAs(entry, id, key) && id !in keys && key !in keys.Values
    ensures ParseEntry(entry, keys) == Ok((id, key))
  {
    var left: string, right: string :| ReadsAround(entry, left, right, id, key);
    CutAfter(left, ':', right);
    var text := Strip(entry);
    ParseEntryIs(entry, text, |left|, id, Strip(right), key, keys);
  }

  ghost predicate AllRead(entries: seq<string>, items: seq<(string, Bytes)>) {
    |items| == |entries| && forall k :: 0 <= k < |items| ==> ReadsAs(entries[k], items[k].0, items[k].1)
  }

  ghost predicate Has(items: seq<(string, Bytes)>, id: string) {
    exists k :: 0 <= k < |items| && items[k].0 == id
  }

  /** No id and no key comes twice or was there before, and these are exactly what is added. */
  ghost predicate Adds(items: seq<(string, Bytes)>, before: map<string, Bytes>, after: map<string, Bytes>) {
    && (forall k :: 0 <= k < |items| ==> items[k].0 !in before && items[k].1 !in before.Values)
    && (forall a, b :: 0 <= a < b < |items| ==> items[a].0 != items[b].0 && items[a].1 != items[b].1)
    && (forall id :: id in after ==> id in before || Has(items, id))
    && (forall id :: id in before ==> id in after && after[id] == before[id])
    && (forall k :: 0 <= k < |items| ==> items[k].0 in after && after[items[k].0] == items[k].1)
  }

  lemma AddsOneMore(id: string, key: Bytes, rest: seq<(string, Bytes)>, before: map<string, Bytes>,
      after: map<string, Bytes>)
    requires id !in before && key !in before.Values && Adds(rest, before[id := key], after)
    ensures Adds([(id, key)] + rest, before, after)
  {
    var items := [(id, key)] + rest;
    ValuesGrow(before, id, key);
    forall i | i in after ensures i in before || Has(items, i) {
      if i !in before { HasOneMore(id, key, rest, i); }
    }
    forall k | 0 <= k < |items|
      ensures items[k].0 !in before && items[k].1 !in before.Values
      ensures items[k].0 in after && after[items[k].0] == items[k].1
      ensures k > 0 ==> items[k].0 != id && items[k].1 != key
    {
      if k > 0 {
        assert items[k] == rest[k - 1] && rest[k - 1].0 !in before[id := key];
      }
    }
    forall a, b | 0 <= a < b < |items| ensures items[a].0 != items[b].0 && items[a].1 != items[b].1 {
      assert items[b] == rest[b - 1] && (a > 0 ==> items[a] == rest[a - 1]);
    }
  }

  lemma HasOneMore(id: string, key: Bytes, rest: seq<(string, Bytes)>, i: string)
    requires i == id || Has(rest, i)
    ensures Has([(id, key)] + rest, i)
  {
    var items := [(id, key)] + rest;
    if i == id {
      assert items[0].0 == i;
    } else {
      var k :| 0 <= k < |rest| && rest[k].0 == i;
      assert items[k + 1].0 == i;
    }
  }

  lemma AddsTheRest(items: seq<(string, Bytes)>, before: map<string, Bytes>, after: map<string, Bytes>)
    requires items != [] && Adds(items, before, after)
    ensures Adds(items[1..], before[items[0].0 := items[0].1], after)
  {
    var id, key, rest := items[0].0, items[0].1, items[1..];
    var before' := before[id := key];
    ValuesGrow(before, id, key);
    forall i | i in after ensures i in before' || Has(rest, i) {
      if i !in before' {
        var k :| 0 <= k < |items| && items[k].0 == i;
        assert rest[k - 1].0 == i;
      }
    }
    forall k | 0 <= k < |rest| ensures rest[k].0 !in before' && rest[k].1 !in before'.Values && rest[k].0 in after {
      assert rest[k] == items[k + 1] && items[0].0 != items[k + 1].0 && items[0].1 != items[k + 1].1;
    }
  }

  lemma {:induction false} AcceptedConfigures(entries: seq<string>, before: map<string, Bytes>,
      after: map<string, Bytes>)
      returns (items: seq<(string, Bytes)>)
    requires ParseEntries(entries, before) == Ok(after)
    ensures AllRead(entries, items) && Adds(items, before, after)
    decreases |entries|
  {
    if entries == [] {
      items := [];
    } else {
      var (id, key) := ParseEntry(entries[0], before).value;
      ParseEntryIff(entries[0], before, id, key);
      var rest := AcceptedConfigures(entries[1..], before[id := key], after);
      items := [(id, key)] + rest;
      AddsOneMore(id, key, rest, before, after);
      AllReadMore(entries, id, key, rest);
    }
  }

  lemma AllReadMore(entries: seq<string>, id: string, key: Bytes, rest: seq<(string, Bytes)>)
    requires entries != [] && ReadsAs(entries[0], id, key) && AllRead(entries[1..], rest)
    ensures AllRead(entries, [(id, key)] + rest)
  {
    forall k | 0 < k < |entries| ensures ReadsAs(entries[k], rest[k - 1].0, rest[k - 1].1) {
      assert ReadsAs(entries[1..][k - 1], rest[k - 1].0, rest[k - 1].1);
    }
  }

  lemma AllReadRest(entries: seq<string>, items: seq<(string, Bytes)>)
    requires entries != [] && AllRead(entries, items)
    ensures AllRead(entries[1..], items[1..]) && ReadsAs(entries[0], items[0].0, items[0].1)
  {
    forall k | 0 <= k < |entries[1..]| ensures ReadsAs(entries[1..][k], items[1..][k].0, items[1..][k].1) {
      assert ReadsAs(entries[k + 1], items[k + 1].0, items[k + 1].1);
    }
  }

  lemma {:induction false} ConfiguredIsAccepted(entries: seq<string>, items: seq<(string, Bytes)>,
      before: map<string, Bytes>, after: map<string, Bytes>)
    requires AllRead(entries, items) && Adds(items, before, after)
    ensures ParseEntries(entries, before) == Ok(after)
    decreases |entries|
  {
    if entries == [] {
      assert after == before;
    } else {
      var id, key := items[0].0, items[0].1;
      AllReadRest(entries, items);
      AddsTheRest(items, before, after);
      ParseEntryIff(entries[0], before, id, key);
      ConfiguredIsAccepted(entries[1..], items[1..], before[id := key], after);
    }
  }

  lemma BlankReadsAsNothing(raw: string, items: seq<(string, Bytes)>)
    requires Strip(raw) == ""
    ensures !AllRead(Split(raw, ','), items)
  {
    var before, after := StripTakes(raw);
    assert raw == before + after;
    assert Cut(raw, ',') == |raw|;
    assert Split(raw, ',') == [raw];
    if |items| == 1 {
      BlankIsNoEntry(raw, items[0].0, items[0].1);
    }
  }

  lemma BlankIsNoEntry(entry: string, id: string, key: Bytes)
    requires Strip(entry) == ""
    ensures !ReadsAs(entry, id, key)
  {
    forall left: string, right: string ensures !ReadsAround(entry, left, right, id, key) {
      assert |left + ":" + right| > 0;
    }
  }

  /** Adding to nothing. */
  ghost predicate Lists(items: seq<(string, Bytes)>, keys: map<string, Bytes>) {
    && (forall a, b :: 0 <= a < b < |items| ==> items[a].0 != items[b].0 && items[a].1 != items[b].1)
    && (forall id :: id in keys <==> Has(items, id))
    && (forall k :: 0 <= k < |items| ==> items[k].0 in keys && keys[items[k].0] == items[k].1)
  }

  lemma ListsIsAdds(items: seq<(string, Bytes)>, none: map<string, Bytes>, keys: map<string, Bytes>)
    requires none == map[]
    ensures Adds(items, none, keys) <==> Lists(items, keys)
  {
    assert none.Values == {};
  }

  /**
   A keyring is parsed exactly from comma-separated entries that each read as a valid id and a 32-byte key, all ids
   and all keys distinct, with the active id among them; the keyring holds these and nothing else.
   */
  lemma ParseIff(raw: string, active: string, ring: Keyring)
    ensures Parse(Some(raw), Some(active)) == Ok(ring) <==>
            && ring.active == Strip(active) && ring.active in ring.keys
            && exists items :: AllRead(Split(raw, ','), items) && Lists(items, ring.keys)
  {
    if Parse(Some(raw), Some(active)) == Ok(ring) {
      var items := AcceptedConfigures(Split(raw, ','), map[], ring.keys);
      ListsIsAdds(items, map[], ring.keys);
    }
    if items :| AllRead(Split(raw, ','), items) && Lists(items, ring.keys) {
      if ring.active == Strip(active) && ring.active in ring.keys {
        ConfigurationParses(raw, active, ring, items);
      }
    }
  }

  lemma ConfigurationParses(raw: string, active: string, ring: Keyring, items: seq<(string, Bytes)>)
    requires AllRead(Split(raw, ','), items) && Lists(items, ring.keys)
    requires ring.active == Strip(active) && ring.active in ring.keys
    ensures Parse(Some(raw), Some(active)) == Ok(ring)
  {
    if Strip(raw) == "" { BlankReadsAsNothing(raw, items); }
    ListsIsAdds(items, map[], ring.keys);
    ConfiguredIsAccepted(Split(raw, ','), items, map[], ring.keys);
    assert Has(items, ring.active);
    var k :| 0 <= k < |items| && items[k].0 == ring.active;
    ReadIdIsValid(Split(raw, ','), items, k);
    ParseIs(raw, active, Split(raw, ','), ring.keys, ring.active);
  }

  lemma ReadIdIsValid(entries: seq<string>, items: seq<(string, Bytes)>, k: nat)
    requires AllRead(entries, items) && k < |items|
    ensures ValidId(items[k].0)
  {
    assert ReadsAs(entries[k], items[k].0, items[k].1);
  }

  /** Either part of the configuration missing is refused. */
  lemma MissingIsRefused(raw: Option<string>, active: Option<string>)
    ensures raw == None || active == None ==> Parse(raw, active).Err?
  {
  }

  // ---- printing a keyring ----

  /** An entry with the whitespace an operator may leave around its parts. */
  datatype Item = Item(id: string, key: Bytes, before: string, afterId: string, beforeKey: string, after: string)

  function Entry(id: string, key: Bytes): string {
    id + ":" + Base64.Encode(key)
  }

  function Printed(item: Item): string {
    item.before + (item.id + item.afterId + ":" + (item.beforeKey + Base64.Encode(item.key))) + item.after
  }

  function PrintAll(items: seq<Item>): seq<string> {
    if items == [] then [] else [Printed(items[0])] + PrintAll(items[1..])
  }

  function MapOf(items: seq<Item>, keys: map<string, Bytes>): map<string, Bytes> {
    if items == [] then keys else MapOf(items[1..], keys[items[0].id := items[0].key])
  }

  ghost predicate GoodItem(item: Item) {
    && ValidId(item.id) && |item.key| == KEY_BYTES
    && Blank(item.before) && Blank(item.afterId) && Blank(item.beforeKey) && Blank(item.after)
  }

  lemma EncodedKeyIsTight(key: Bytes)
    requires key != []
    ensures Tight(Base64.Encode(key)) && Clean(Base64.Encode(key))
  {
    EncodeClean(key);
    var s := Base64.Encode(key);
    assert s != "";
    assert (IsDigit(s[0]) || s[0] == '=') && (IsDigit(s[|s| - 1]) || s[|s| - 1] == '=');
  }

  lemma PrintedHasNoComma(item: Item)
    requires GoodItem(item)
    ensures Without(Printed(item), ',')
  {
    EncodedKeyIsTight(item.key);
  }

  /** The parts of a printed entry, once the whitespace is off. */
  lemma PrintedParts(item: Item) returns (core: string, n: nat)
    requires GoodItem(item)
    ensures Strip(Printed(item)) == core && Cut(core, ':') == n < |core|
    ensures core[..n] == item.id + item.afterId && core[n + 1..] == item.beforeKey + Base64.Encode(item.key)
  {
    var id, b64 := item.id, Base64.Encode(item.key);
    EncodedKeyIsTight(item.key);
    var left, right := id + item.afterId, item.beforeKey + b64;
    core, n := left + ":" + right, |left|;
    assert core[0] == id[0] && core[|core| - 1] == b64[|b64| - 1];
    StripPadded(item.before, core, item.after);
    assert Without(left, ':');
    CutAfter(left, ':', right);
  }

  lemma PartsStrip(item: Item)
    requires GoodItem(item)
    ensures Strip(item.id + item.afterId) == item.id
    ensures Strip(item.beforeKey + Base64.Encode(item.key)) == Base64.Encode(item.key)
  {
    var id, b64 := item.id, Base64.Encode(item.key);
    EncodedKeyIsTight(item.key);
    assert id + item.afterId == "" + id + item.afterId && item.beforeKey + b64 == item.beforeKey + b64 + "";
    StripPadded("", id, item.afterId);
    StripPadded(item.beforeKey, b64, "");
  }

  lemma ParseEntryIs(raw: string, entry: string, n: nat, id: string, b64: string, key: Bytes, keys: map<string, Bytes>)
    requires Strip(raw) == entry && entry != "" && Cut(entry, ':') == n < |entry|
    requires Strip(entry[..n]) == id && Strip(entry[n + 1..]) == b64
    requires ValidId(id) && id !in keys && key !in keys.Values
    requires Base64.Decode(b64) == Some(key) && |key| == KEY_BYTES
    ensures ParseEntry(raw, keys) == Ok((id, key))
  {
    PairIff(id, b64, keys, id, key);
  }

  /** A printed entry is read back, unless its id or key is already taken. */
  lemma PrintedParses(item: Item, keys: map<string, Bytes>)
    requires GoodItem(item) && item.id !in keys && item.key !in keys.Values
    ensures ParseEntry(Printed(item), keys) == Ok((item.id, item.key))
  {
    var core, n := PrintedParts(item);
    PartsStrip(item);
    RoundTrip(item.key);
    ParseEntryIs(Printed(item), core, n, item.id, Base64.Encode(item.key), item.key, keys);
  }

  ghost predicate Fresh(items: seq<Item>, keys: map<string, Bytes>) {
    && (forall k :: 0 <= k < |items| ==> GoodItem(items[k]) && items[k].id !in keys && items[k].key !in keys.Values)
    && (forall a, b :: 0 <= a < b < |items| ==> items[a].id != items[b].id && items[a].key != items[b].key)
  }

  lemma {:induction false} PrintedEntriesParse(items: seq<Item>, keys: map<string, Bytes>)
    requires Fresh(items, keys)
    ensures ParseEntries(PrintAll(items), keys) == Ok(MapOf(items, keys))
    decreases |items|
  {
    if items == [] {
    } else {
      var item, rest := items[0], items[1..];
      PrintedParses(item, keys);
      FreshRest(items, keys);
      PrintedEntriesParse(rest, keys[item.id := item.key]);
      assert PrintAll(items)[1..] == PrintAll(rest);
    }
  }

  lemma FreshRest(items: seq<Item>, keys: map<string, Bytes>)
    requires Fresh(items, keys) && items != []
    ensures Fresh(items[1..], keys[items[0].id := items[0].key])
  {
    ValuesGrow(keys, items[0].id, items[0].key);
  }

  lemma {:induction false} PrintAllAt(items: seq<Item>)
    ensures |PrintAll(items)| == |items|
    ensures forall k :: 0 <= k < |items| ==> PrintAll(items)[k] == Printed(items[k])
  {
    if items == [] {
    } else {
      PrintAllAt(items[1..]);
    }
  }

  lemma {:induction false} MapOfHas(items: seq<Item>, keys: map<string, Bytes>, k: nat)
    requires Fresh(items, keys) && k < |items|
    ensures items[k].id in MapOf(items, keys) && MapOf(items, keys)[items[k].id] == items[k].key
    decreases |items|
  {
    var item, rest := items[0], items[1..];
    FreshRest(items, keys);
    if k > 0 {
      MapOfHas(rest, keys[item.id := item.key], k - 1);
    } else {
      MapOfKeeps(rest, keys[item.id := item.key], item.id);
    }
  }

  lemma {:induction false} MapOfKeeps(items: seq<Item>, keys: map<string, Bytes>, id: string)
    requires id in keys && forall k :: 0 <= k < |items| ==> items[k].id != id
    ensures id in MapOf(items, keys) && MapOf(items, keys)[id] == keys[id]
    decreases |items|
  {
    if items == [] {
    } else {
      MapOfKeeps(items[1..], keys[items[0].id := items[0].key], id);
    }
  }

  lemma JoinHasFirst(parts: seq<string>, sep: char, k: nat)
    requires parts != [] && k < |parts[0]|
    ensures k < |Join(parts, sep)| && Join(parts, sep)[k] == parts[0][k]
  {
  }

  /** The printed configuration, and the entries it splits into. */
  lemma PrintedSplits(items: seq<Item>)
    requires Fresh(items, map[]) && items != []
    ensures Strip(Join(PrintAll(items), ',')) != ""
    ensures Split(Join(PrintAll(items), ','), ',') == PrintAll(items)
  {
    var parts, item := PrintAll(items), items[0];
    PrintAllAt(items);
    forall k | 0 <= k < |parts| ensures Without(parts[k], ',') {
      PrintedHasNoComma(items[k]);
    }
    SplitJoin(parts, ',');
    var start := |item.before|;
    assert parts[0][start] == item.id[0];
    JoinHasFirst(parts, ',', start);
    StripKeeps(Join(parts, ','), start);
  }

  /**
   Any keys printed in any order, with any whitespace around the separators and the active id, are read back
   as the same keyring.
   */
  lemma PrintedKeyringParses(items: seq<Item>, k: nat, before: string, after: string)
    requires Fresh(items, map[]) && k < |items| && Blank(before) && Blank(after)
    ensures Parse(Some(Join(PrintAll(items), ',')), Some(before + items[k].id + after)) ==
      Ok(Keyring(MapOf(items, map[]), items[k].id))
  {
    var parts, keys, id := PrintAll(items), MapOf(items, map[]), items[k].id;
    PrintedSplits(items);
    PrintedEntriesParse(items, map[]);
    ActiveStrips(before, items[k], after);
    MapOfHas(items, map[], k);
    ParseIs(Join(parts, ','), before + id + after, parts, keys, id);
  }

  lemma ActiveStrips(before: string, item: Item, after: string)
    requires GoodItem(item) && Blank(before) && Blank(after)
    ensures Strip(before + item.id + after) == item.id && item.id != ""
  {
    StripPadded(before, item.id, after);
  }

  lemma ParseIs(raw: string, active: string, parts: seq<string>, keys: map<string, Bytes>, id: string)
    requires Strip(raw) != "" && Split(raw, ',') == parts && ParseEntries(parts, map[]) == Ok(keys)
    requires Strip(active) == id && id != "" && id in keys
    ensures Parse(Some(raw), Some(active)) == Ok(Keyring(keys, id))
  {
  }

  /** The map read back is the one printed: these ids, these keys, and no others. */
  lemma {:induction false} MapOfIsExact(items: seq<Item>, keys: map<string, Bytes>)
    requires Fresh(items, keys)
    ensures MapOf(items, keys).Keys == keys.Keys + set k | 0 <= k < |items| :: items[k].id
    ensures forall k :: 0 <= k < |items| ==>
      items[k].id in MapOf(items, keys) && MapOf(items, keys)[items[k].id] == items[k].key
    decreases |items|
  {
    forall k | 0 <= k < |items|
      ensures items[k].id in MapOf(items, keys) && MapOf(items, keys)[items[k].id] == items[k].key
    {
      MapOfHas(items, keys, k);
    }
    MapOfKeys(items, keys);
  }

  lemma {:induction false} MapOfKeys(items: seq<Item>, keys: map<string, Bytes>)
    ensures MapOf(items, keys).Keys == keys.Keys + set k | 0 <= k < |items| :: items[k].id
    decreases |items|
  {
    if items == [] {
    } else {
      MapOfKeys(items[1..], keys[items[0].id := items[0].key]);
      var all, rest := set k | 0 <= k < |items| :: items[k].id, set k | 0 <= k < |items[1..]| :: items[1..][k].id;
      assert all == rest + {items[0].id} by {
        forall k | 0 < k < |items| ensures items[k].id in rest { assert items[1..][k - 1] == items[k]; }
      }
    }
  }

  /** The operator's key generator; the key bytes are random. */
  function GenerateKeyEntry(id: string, key: Bytes): Result<string, ConfigError> {
    if ValidId(id) then Ok(Entry(id, key)) else Err(BadKeyId)
  }

  lemma GeneratesForValidIds(id: string, key: Bytes)
    ensures GenerateKeyEntry(id, key).Ok? <==> ValidId(id)
    ensures GenerateKeyEntry(id, key).Ok? ==> GenerateKeyEntry(id, key).value == id + ":" + Base64.Encode(key)
  {
  }

  /** A generated entry is by itself a keyring configuration. */
  lemma GeneratedEntryParses(id: string, key: Bytes)
    requires |key| == KEY_BYTES && GenerateKeyEntry(id, key).Ok?
    ensures Parse(Some(GenerateKeyEntry(id, key).value), Some(id)) == Ok(Keyring(map[id := key], id))
  {
    var item := Item(id, key, "", "", "", "");
    var entry := Entry(id, key);
    assert Printed(item) == entry;
    PrintedHasNoComma(item);
    CutAfter(entry, ',', "");
    PrintedParses(item, map[]);
    EncodedKeyIsTight(key);
    TightStrips(id);
    TightStrips(entry);
    OneEntryParses(entry, id, key);
  }

  lemma TightStrips(s: string)
    requires Tight(s)
    ensures Strip(s) == s
  {
    StripPadded("", s, "");
    assert "" + s + "" == s;
  }

  lemma OneEntryParses(entry: string, id: string, key: Bytes)
    requires entry != "" && Strip(entry) == entry && Cut(entry, ',') == |entry|
    requires id != "" && Strip(id) == id && ParseEntry(entry, map[]) == Ok((id, key))
    ensures Parse(Some(entry), Some(id)) == Ok(Keyring(map[id := key], id))
  {
    assert Split(entry, ',') == [entry];
    assert ParseEntries([entry][1..], map[id := key]) == Ok(map[id := key]);
  }

  // ---- envelopes ----

  /** Authenticated encryption of a text.  `open` fails when the tag does not match. */
  datatype Cipher = Cipher(seal: (Bytes, Bytes, string) -> Bytes, open: (Bytes, Bytes, Bytes) -> Option<string>)

  ghost predicate Sound(c: Cipher) {
    forall key, nonce, text :: c.open(key, nonce, c.seal(key, nonce, text)) == Some(text)
  }

  datatype CryptError =
    | KeyNotConfigured | NotAnEnvelope | Malformed | UnknownKey | InvalidBase64 | BadNonce | AuthenticationFailed

  predicate IsEncrypted(value: string) {
    |value| >= |PREFIX| && value[..|PREFIX|] == PREFIX
  }

  function Parts(c: Cipher, text: string, id: string, key: Bytes, nonce: Bytes): seq<string> {
    ["enc", "v1", id, Base64.Encode(nonce), Base64.Encode(c.seal(key, nonce, text))]
  }

  function Envelope(c: Cipher, text: string, id: string, key: Bytes, nonce: Bytes): string {
    Join(Parts(c, text, id, key, nonce), ':')
  }

  /** An absent or empty key id means the active key. */
  function Resolve(ring: Keyring, keyId: Option<string>): string {
    if keyId.Some? && keyId.value != "" then keyId.value else ring.active
  }

  function EncryptText(c: Cipher, text: string, ring: Keyring, keyId: Option<string>, nonce: Bytes)
    : Result<string, CryptError>
  {
    var id := Resolve(ring, keyId);
    if id in ring.keys then Ok(Envelope(c, text, id, ring.keys[id], nonce)) else Err(KeyNotConfigured)
  }

  function Decrypt(c: Cipher, envelope: string, ring: Keyring): Result<string, CryptError> {
    if !IsEncrypted(envelope) then Err(NotAnEnvelope)
    else
      var parts := SplitAtMost(envelope, ':', 4);
      if |parts| != 5 || parts[0] != "enc" || parts[1] != "v1" then Err(Malformed)
      else if parts[2] !in ring.keys then Err(UnknownKey)
      else
        var nonce, sealed := Base64.Decode(parts[3]), Base64.Decode(parts[4]);
        if nonce.None? || sealed.None? then Err(InvalidBase64)
        else if |nonce.value| != NONCE_BYTES then Err(BadNonce)
        else
          match c.open(ring.keys[parts[2]], nonce.value, sealed.value)
          case None => Err(AuthenticationFailed)
          case Some(text) => Ok(text)
  }

  // ---- exactly what decrypts, and to what ----

  /**
   The value is an envelope naming a configured key, with the base64 of a twelve-byte nonce and of something that
   this key and nonce open to `text`.
   */
  ghost predicate Opens(c: Cipher, ring: Keyring, value: string, text: string) {
    exists id: string, nonce64: string, sealed64: string :: OpensAs(c, ring, value, text, id, nonce64, sealed64)
  }

  ghost predicate OpensAs(c: Cipher, ring: Keyring, value: string, text: string, id: string, nonce64: string,
      sealed64: string)
  {
    && IsEnvelopeOf(ring, value, id, nonce64, sealed64)
    && c.open(ring.keys[id], Base64.Decode(nonce64).value, Base64.Decode(sealed64).value) == Some(text)
  }

  predicate IsEnvelopeOf(ring: Keyring, value: string, id: string, nonce64: string, sealed64: string) {
    && value == "enc:v1:" + id + ":" + nonce64 + ":" + sealed64
    && id in ring.keys
    && Base64.Decode(nonce64).Some? && |Base64.Decode(nonce64).value| == 12
    && Base64.Decode(sealed64).Some?
  }

  lemma JoinFive(a: string, b: string, c: string, d: string, e: string)
    ensures Join([a, b, c, d, e], ':') == a + ":" + b + ":" + c + ":" + d + ":" + e
  {
    JoinMore(d, [e], e, [d, e]);
    JoinMore(c, [d, e], d + ":" + e, [c, d, e]);
    JoinMore(b, [c, d, e], c + ":" + (d + ":" + e), [b, c, d, e]);
    JoinMore(a, [b, c, d, e], b + ":" + (c + ":" + (d + ":" + e)), [a, b, c, d, e]);
    Flatten(a, b, c, d, e);
  }

  lemma JoinMore(head: string, parts: seq<string>, joined: string, all: seq<string>)
    requires parts != [] && Join(parts, ':') == joined && all == [head] + parts
    ensures Join(all, ':') == head + ":" + joined
  {
    JoinFirst(head, parts, ':');
  }

  lemma Flatten(a: string, b: string, c: string, d: string, e: string)
    ensures a + ":" + (b + ":" + (c + ":" + (d + ":" + e))) == a + ":" + b + ":" + c + ":" + d + ":" + e
  {
  }

  lemma DecodedHasNoColon(s: string)
    requires Base64.Decode(s).Some?
    ensures Without(s, ':')
  {
    DecodeAccepts(s);
  }

  lemma HeadJoins(id: string, nonce64: string, sealed64: string)
    ensures "enc" + ":" + "v1" + ":" + id + ":" + nonce64 + ":" + sealed64 ==
            "enc:v1:" + id + ":" + nonce64 + ":" + sealed64
  {
    assert "enc" + ":" + "v1" + ":" == "enc:v1:";
  }

  /** Five parts of which only the last could hold a colon are what the text they join to is split into. */
  lemma FiveParts(value: string, id: string, nonce64: string, sealed64: string)
    requires value == "enc:v1:" + id + ":" + nonce64 + ":" + sealed64
    requires Without(id, ':') && Without(nonce64, ':')
    ensures SplitAtMost(value, ':', 4) == ["enc", "v1", id, nonce64, sealed64]
    ensures IsEncrypted(value)
    ensures Without(sealed64, ':') ==> Split(value, ':') == ["enc", "v1", id, nonce64, sealed64]
  {
    var parts := ["enc", "v1", id, nonce64, sealed64];
    JoinFive("enc", "v1", id, nonce64, sealed64);
    HeadJoins(id, nonce64, sealed64);
    forall k | 0 <= k < 4 ensures Without(parts[k], ':') {
      assert k == 0 || k == 1 || k == 2 || k == 3;
    }
    SplitAtMostJoin(parts, ':');
    if Without(sealed64, ':') {
      SplitJoin(parts, ':');
    }
    assert value[..7] == "enc:v1:";
  }

  lemma DecryptedParts(c: Cipher, value: string, ring: Keyring, text: string, parts: seq<string>)
    requires Decrypt(c, value, ring) == Ok(text) && parts == SplitAtMost(value, ':', 4)
    ensures |parts| == 5 && parts[0] == "enc" && parts[1] == "v1" && parts[2] in ring.keys
    ensures Base64.Decode(parts[3]).Some? && |Base64.Decode(parts[3]).value| == 12 && Base64.Decode(parts[4]).Some?
    ensures c.open(ring.keys[parts[2]], Base64.Decode(parts[3]).value, Base64.Decode(parts[4]).value) == Some(text)
  {
  }

  lemma DecryptedOpens(c: Cipher, value: string, ring: Keyring, text: string)
    requires Decrypt(c, value, ring) == Ok(text)
    ensures Opens(c, ring, value, text)
  {
    var parts := SplitAtMost(value, ':', 4);
    DecryptedParts(c, value, ring, text, parts);
    JoinSplitAtMost(value, ':', 4);
    PartsOpen(c, value, ring, text, parts);
  }

  lemma PartsOpen(c: Cipher, value: string, ring: Keyring, text: string, parts: seq<string>)
    requires |parts| == 5 && parts[0] == "enc" && parts[1] == "v1" && parts[2] in ring.keys && Join(parts, ':') == value
    requires Base64.Decode(parts[3]).Some? && |Base64.Decode(parts[3]).value| == 12 && Base64.Decode(parts[4]).Some?
    requires c.open(ring.keys[parts[2]], Base64.Decode(parts[3]).value, Base64.Decode(parts[4]).value) == Some(text)
    ensures Opens(c, ring, value, text)
  {
    assert parts == ["enc", "v1", parts[2], parts[3], parts[4]];
    JoinFive("enc", "v1", parts[2], parts[3], parts[4]);
    HeadJoins(parts[2], parts[3], parts[4]);
    assert OpensAs(c, ring, value, text, parts[2], parts[3], parts[4]);
  }

  lemma PartsDecrypt(c: Cipher, value: string, ring: Keyring, id: string, nonce64: string, sealed64: string)
    requires IsEnvelopeOf(ring, value, id, nonce64, sealed64)
    requires IsEncrypted(value) && SplitAtMost(value, ':', 4) == ["enc", "v1", id, nonce64, sealed64]
    ensures Decrypt(c, value, ring) ==
            match c.open(ring.keys[id], Base64.Decode(nonce64).value, Base64.Decode(sealed64).value)
            case None => Err(AuthenticationFailed)
            case Some(text) => Ok(text)
  {
  }

  /**
   An envelope in form and naming a configured key decrypts to what the cipher opens it to, or fails when it does not
   open.
   */
  lemma EnvelopeDecrypts(c: Cipher, value: string, ring: Keyring, id: string, nonce64: string, sealed64: string)
    requires WellFormed(ring) && IsEnvelopeOf(ring, value, id, nonce64, sealed64)
    ensures var plain := c.open(ring.keys[id], Base64.Decode(nonce64).value, Base64.Decode(sealed64).value);
            && (plain.Some? ==> Decrypt(c, value, ring) == Ok(plain.value))
            && (plain.None? ==> Decrypt(c, value, ring) == Err(AuthenticationFailed))
  {
    assert ValidId(id);
    DecodedHasNoColon(nonce64);
    FiveParts(value, id, nonce64, sealed64);
    PartsDecrypt(c, value, ring, id, nonce64, sealed64);
  }

  /** A value decrypts to a text exactly when it is an envelope that opens to it. */
  lemma DecryptIff(c: Cipher, value: string, ring: Keyring, text: string)
    requires WellFormed(ring)
    ensures Decrypt(c, value, ring) == Ok(text) <==> Opens(c, ring, value, text)
  {
    if Decrypt(c, value, ring) == Ok(text) {
      DecryptedOpens(c, value, ring, text);
    }
    if Opens(c, ring, value, text) {
      var id: string, nonce64: string, sealed64: string :| OpensAs(c, ring, value, text, id, nonce64, sealed64);
      EnvelopeDecrypts(c, value, ring, id, nonce64, sealed64);
    }
  }

  // ---- encryption and decryption ----

  lemma EnvelopeHasPrefix(c: Cipher, text: string, id: string, key: Bytes, nonce: Bytes)
    ensures IsEncrypted(Envelope(c, text, id, key, nonce))
  {
    var parts := Parts(c, text, id, key, nonce);
    var tail := Join(parts[1..][1..], ':');
    assert Join(parts[1..], ':') == "v1" + ":" + tail;
    assert Envelope(c, text, id, key, nonce) == "enc" + ":" + ("v1" + ":" + tail);
    assert Envelope(c, text, id, key, nonce)[..|PREFIX|] == PREFIX;
  }

  /** Splitting an envelope gives back exactly the five parts it was printed from. */
  lemma EnvelopeSplits(c: Cipher, text: string, id: string, key: Bytes, nonce: Bytes)
    requires ValidId(id)
    ensures SplitAtMost(Envelope(c, text, id, key, nonce), ':', 4) == Parts(c, text, id, key, nonce)
  {
    var parts := Parts(c, text, id, key, nonce);
    EncodeClean(nonce);
    forall k | 0 <= k < 4 ensures Without(parts[k], ':') {
      assert k == 0 || k == 1 || k == 2 || k == 3;
    }
    SplitAtMostJoin(parts, ':');
  }

  lemma EnvelopeOpens(c: Cipher, text: string, id: string, nonce: Bytes, ring: Keyring)
    requires Sound(c) && WellFormed(ring) && id in ring.keys && |nonce| == NONCE_BYTES
    ensures Decrypt(c, Envelope(c, text, id, ring.keys[id], nonce), ring) == Ok(text)
  {
    EnvelopeHasPrefix(c, text, id, ring.keys[id], nonce);
    EnvelopeSplits(c, text, id, ring.keys[id], nonce);
    RoundTrip(nonce);
    RoundTrip(c.seal(ring.keys[id], nonce, text));
    PrintedPartsOpen(c, Envelope(c, text, id, ring.keys[id], nonce), text, id, nonce, ring);
  }

  lemma PrintedPartsOpen(c: Cipher, envelope: string, text: string, id: string, nonce: Bytes, ring: Keyring)
    requires Sound(c) && id in ring.keys && |nonce| == NONCE_BYTES
    requires IsEncrypted(envelope) && SplitAtMost(envelope, ':', 4) == Parts(c, text, id, ring.keys[id], nonce)
    requires Base64.Decode(Base64.Encode(nonce)) == Some(nonce)
    requires var sealed := c.seal(ring.keys[id], nonce, text); Base64.Decode(Base64.Encode(sealed)) == Some(sealed)
    ensures Decrypt(c, envelope, ring) == Ok(text)
  {
  }

  /** For every accepted keyring, configured key, nonce and text, decryption inverts encryption. */
  lemma DecryptInvertsEncrypt(c: Cipher, raw: Option<string>, active: Option<string>, keyId: Option<string>,
      nonce: Bytes, text: string)
    requires Sound(c) && Parse(raw, active).Ok? && |nonce| == NONCE_BYTES
    ensures var ring := Parse(raw, active).value;
            var r := EncryptText(c, text, ring, keyId, nonce);
            && (r.Ok? <==> keyId.None? || keyId.value == "" || keyId.value in ring.keys)
            && (r.Ok? ==> Decrypt(c, r.value, ring) == Ok(text))
  {
    var ring := Parse(raw, active).value;
    AcceptedIsWellFormed(raw, active);
    if Resolve(ring, keyId) in ring.keys {
      EnvelopeOpens(c, text, Resolve(ring, keyId), nonce, ring);
    }
  }

  /** The envelope names this key id and this nonce, and the one key suffices to open it to the text. */
  ghost predicate SealedUnder(c: Cipher, value: string, id: string, key: Bytes, nonce: Bytes, text: string) {
    && Decrypt(c, value, Keyring(map[id := key], id)) == Ok(text)
    && |Split(value, ':')| == 5 && Split(value, ':')[..4] == ["enc", "v1", id, Base64.Encode(nonce)]
  }

  lemma EnvelopeIsSealed(c: Cipher, text: string, id: string, key: Bytes, nonce: Bytes)
    requires Sound(c) && ValidId(id) && |key| == 32 && |nonce| == 12
    ensures SealedUnder(c, Envelope(c, text, id, key, nonce), id, key, nonce, text)
  {
    var nonce64, sealed64 := Base64.Encode(nonce), Base64.Encode(c.seal(key, nonce, text));
    JoinFive("enc", "v1", id, nonce64, sealed64);
    HeadJoins(id, nonce64, sealed64);
    EncodeClean(nonce);
    EncodeClean(c.seal(key, nonce, text));
    FiveParts(Envelope(c, text, id, key, nonce), id, nonce64, sealed64);
    OneKeyIsWellFormed(id, key);
    EnvelopeOpens(c, text, id, nonce, Keyring(map[id := key], id));
  }

  lemma OneKeyIsWellFormed(id: string, key: Bytes)
    requires ValidId(id) && |key| == 32
    ensures WellFormed(Keyring(map[id := key], id))
  {
  }

  /**
   Encryption succeeds exactly for an absent, empty or configured key id, and seals under that key, the active one
   if none was named, with the nonce drawn.
   */
  lemma EncryptSealsUnder(c: Cipher, text: string, ring: Keyring, keyId: Option<string>, nonce: Bytes)
    requires Sound(c) && WellFormed(ring) && |nonce| == 12
    ensures var r := EncryptText(c, text, ring, keyId, nonce);
            && (r.Ok? <==> keyId == None || keyId == Some("") || keyId.value in ring.keys)
            && (r.Ok? ==>
                  var id := if keyId == None || keyId == Some("") then ring.active else keyId.value;
                  SealedUnder(c, r.value, id, ring.keys[id], nonce, text))
  {
    var id := if keyId == None || keyId == Some("") then ring.active else keyId.value;
    if id in ring.keys {
      EnvelopeIsSealed(c, text, id, ring.keys[id], nonce);
    }
  }

  // ---- rotation ----

  function Rekey(c: Cipher, envelope: string, ring: Keyring, target: Option<string>, nonce: Bytes)
    : Result<string, CryptError>
  {
    match Decrypt(c, envelope, ring)
    case Err(e) => Err(e)
    case Ok(text) => EncryptText(c, text, ring, target, nonce)
  }

  /**
   Rekeying an envelope that decrypts succeeds exactly for an absent, empty or configured target, and the result is
   sealed under that key alone, so that the old one may go; an envelope that does not decrypt is refused.
   */
  lemma RekeyMovesToTarget(c: Cipher, envelope: string, ring: Keyring, target: Option<string>, nonce: Bytes)
    requires Sound(c) && WellFormed(ring) && |nonce| == 12
    ensures var r := Rekey(c, envelope, ring, target, nonce);
            match Decrypt(c, envelope, ring)
            case Err(e) => r == Err(e)
            case Ok(text) =>
              && (r.Ok? <==> target == None || target == Some("") || target.value in ring.keys)
              && (r.Ok? ==>
                    var id := if target == None || target == Some("") then ring.active else target.value;
                    SealedUnder(c, r.value, id, ring.keys[id], nonce, text))
  {
    var plain := Decrypt(c, envelope, ring);
    if plain.Ok? {
      EncryptSealsUnder(c, plain.value, ring, target, nonce);
    }
  }

  /** Rekey again and again, each time to some key under some nonce; a failed attempt leaves the envelope alone. */
  function RekeyAll(c: Cipher, envelope: string, ring: Keyring, targets: seq<(Option<string>, Bytes)>): string
    decreases |targets|
  {
    if targets == [] then envelope
    else
      var r := Rekey(c, envelope, ring, targets[0].0, targets[0].1);
      RekeyAll(c, if r.Ok? then r.value else envelope, ring, targets[1..])
  }

  lemma {:induction false} RekeyingKeepsPlaintext(c: Cipher, envelope: string, ring: Keyring,
      targets: seq<(Option<string>, Bytes)>)
    requires Sound(c) && WellFormed(ring) && Decrypt(c, envelope, ring).Ok?
    requires forall k :: 0 <= k < |targets| ==> |targets[k].1| == NONCE_BYTES
    ensures Decrypt(c, RekeyAll(c, envelope, ring, targets), ring) == Decrypt(c, envelope, ring)
    decreases |targets|
  {
    if targets == [] {
    } else {
      var r := Rekey(c, envelope, ring, targets[0].0, targets[0].1);
      if r.Ok? {
        EnvelopeOpens(c, Decrypt(c, envelope, ring).value, Resolve(ring, targets[0].0), targets[0].1, ring);
      }
      RekeyingKeepsPlaintext(c, if r.Ok? then r.value else envelope, ring, targets[1..]);
    }
  }

  /** A keyring with at least these keys reads everything this one reads, whichever key is active. */
  lemma MoreKeysSameText(c: Cipher, envelope: string, ring: Keyring, ring': Keyring)
    requires forall id :: id in ring.keys ==> id in ring'.keys && ring'.keys[id] == ring.keys[id]
    requires Decrypt(c, envelope, ring).Ok?
    ensures Decrypt(c, envelope, ring') == Decrypt(c, envelope, ring)
  {
  }

  lemma {:induction false} EntriesAppend(a: seq<string>, b: seq<string>, keys: map<string, Bytes>)
    ensures ParseEntries(a + b, keys) ==
            match ParseEntries(a, keys) case Err(e) => Err(e) case Ok(mid) => ParseEntries(b, mid)
    decreases |a|
  {
    if a == [] {
      assert a + b == b;
    } else {
      assert (a + b)[1..] == a[1..] + b;
      var first := ParseEntry(a[0], keys);
      if first.Ok? {
        EntriesAppend(a[1..], b, keys[first.value.0 := first.value.1]);
      }
    }
  }

  /** Appending entries and choosing another active key never changes what an existing envelope decrypts to. */
  lemma RotationKeepsPlaintext(c: Cipher, envelope: string, raw: string, more: string, active: Option<string>,
      active': Option<string>)
    requires Parse(Some(raw), active).Ok? && Parse(Some(raw + "," + more), active').Ok?
    requires Decrypt(c, envelope, Parse(Some(raw), active).value).Ok?
    ensures Decrypt(c, envelope, Parse(Some(raw + "," + more), active').value) ==
      Decrypt(c, envelope, Parse(Some(raw), active).value)
  {
    var a, b := Split(raw, ','), Split(more, ',');
    SplitAppend(raw, ',', more);
    EntriesAppend(a, b, map[]);
    EntriesKeepGood(a, map[]);
    EntriesKeepGood(b, ParseEntries(a, map[]).value);
    MoreKeysSameText(c, envelope, Parse(Some(raw), active).value, Parse(Some(raw + "," + more), active').value);
  }
}
