/** The stream handler's classification and configuration logic: parsing
    the archive configuration, picking the records removed by TTL expiry,
    comparing images while ignoring the TTL attribute, and picking the
    records that need a TTL written back. */
module Utility {
  import opened Wrappers
  import opened JsStrings
  import opened Collections
  import opened StreamRecords

  /** The attribute DynamoDB's TTL sweep reads. */
  const TtlFieldName := "_ttlInSeconds"

  /** The principal DynamoDB's TTL sweep acts as. */
  const ServicePrincipal := "dynamodb.amazonaws.com"

  // ===========================================================================
  // parseArchiveConfig
  // ===========================================================================

  /** The two errors the parser throws: an entry that is not a
      `category,ttl` pair, and a TTL that is not accepted. */
  datatype ConfigError = InvalidArchiveConfig(entry: string) | InvalidTtlTime(token: string)

  /** How one `|`-separated entry reads before its TTL is parsed: blank, not
      two non-blank `,`-separated parts, or a category and a TTL token. */
  datatype EntryShape = Blank | Malformed | Pair(category: string, token: string)

  function EntryShapeOf(entry: string): (shape: EntryShape)
    ensures shape.Blank? <==> AllWhitespace(entry)
    ensures shape.Pair? ==>
      && entry == shape.category + "," + shape.token
      && ',' !in shape.category && ',' !in shape.token
      && Trim(shape.category) != "" && Trim(shape.token) != ""
  {
    if Trim(entry) == "" then Blank
    else
      var parts := Split(entry, ',');
      if |parts| == 2 && Trim(parts[0]) != "" && Trim(parts[1]) != "" then
        JoinSplit(entry, ',');
        assert parts[1..] == [parts[1]];
        Pair(parts[0], parts[1])
      else Malformed
  }

  /** What one entry contributes: nothing (blank), a `category -> ttl` binding,
      or an error. A TTL that parses to a positive integer is bound under the
      trimmed category; a TTL of zero or less, or one that is not a number, is
      an InvalidTtlTime error. */
  function ParseEntry(entry: string): (r: Result<Option<(string, int)>, ConfigError>)
    ensures r == Success(None) <==> AllWhitespace(entry)
    ensures r.Success? && r.value.Some? ==>
      r.value.value.1 > 0 && r.value.value.0 != "" && IsTrimmed(r.value.value.0)
    ensures r.Success? <==>
      || AllWhitespace(entry)
      || (EntryShapeOf(entry).Pair? && ParseInt(EntryShapeOf(entry).token).Num?
          && ParseInt(EntryShapeOf(entry).token).value > 0)
    ensures !AllWhitespace(entry) && !EntryShapeOf(entry).Pair? ==> r == Failure(InvalidArchiveConfig(entry))
    ensures r.Failure? && EntryShapeOf(entry).Pair? ==> r == Failure(InvalidTtlTime(EntryShapeOf(entry).token))
  {
    match EntryShapeOf(entry)
    case Blank => Success(None)
    case Malformed => Failure(InvalidArchiveConfig(entry))
    case Pair(category, token) => PairStep(category, token, ParseInt(token))
  }

  /** A `category,token` entry whose token parsed to `ttl`. */
  function PairStep(category: string, token: string, ttl: JsNumber): (r: Result<Option<(string, int)>, ConfigError>)
    ensures r != Success(None)
    ensures r.Success? ==> ttl.Num? && r.value.Some? && r.value.value == (Trim(category), ttl.value) && ttl.value > 0
  {
    match ttl
    case NaN => Failure(InvalidTtlTime(token))
    case Num(n) => if n <= 0 then Failure(InvalidTtlTime(token)) else Success(Some((Trim(category), n)))
  }

  /** The same as the source writes it: NaN is bound. */
  function PairStepAsWritten(category: string, token: string, ttl: JsNumber): (r: Result<Option<(string, JsNumber)>, ConfigError>)
    ensures r != Success(None)
    ensures r.Success? ==> r.value.Some? && r.value.value == (Trim(category), ttl) && (ttl.Num? ==> ttl.value > 0)
  {
    if ttl.Num? && ttl.value <= 0 then Failure(InvalidTtlTime(token)) else Success(Some((Trim(category), ttl)))
  }

  /** The per-entry step as the source writes it: `parseInt` never throws, so
      a token that is not a number gives NaN, which passes the `ttl <= 0`
      test and is stored. */
  function ParseEntryAsWritten(entry: string): (r: Result<Option<(string, JsNumber)>, ConfigError>)
    ensures r == Success(None) <==> AllWhitespace(entry)
    ensures r.Success? && r.value.Some? && r.value.value.1.Num? ==> r.value.value.1.value > 0
    ensures r.Success? <==>
      || AllWhitespace(entry)
      || (EntryShapeOf(entry).Pair? && (ParseInt(EntryShapeOf(entry).token).NaN?
          || ParseInt(EntryShapeOf(entry).token).value > 0))
    ensures !AllWhitespace(entry) && !EntryShapeOf(entry).Pair? ==> r == Failure(InvalidArchiveConfig(entry))
    ensures r.Failure? && EntryShapeOf(entry).Pair? ==> r == Failure(InvalidTtlTime(EntryShapeOf(entry).token))
  {
    match EntryShapeOf(entry)
    case Blank => Success(None)
    case Malformed => Failure(InvalidArchiveConfig(entry))
    case Pair(category, token) => PairStepAsWritten(category, token, ParseInt(token))
  }

  /** The `forEach` over the entries: bind each pair in turn (a later binding
      of a category replaces an earlier one) and stop at the first error, with
      no partial map. */
  function ApplyEntries<V>(parse: string -> Result<Option<(string, V)>, ConfigError>,
                           entries: seq<string>, acc: map<string, V>): (r: Result<map<string, V>, ConfigError>)
    ensures r.Success? ==> acc.Keys <= r.value.Keys
  {
    if entries == [] then Success(acc)
    else
      match parse(entries[0])
      case Failure(e) => Failure(e)
      case Success(None) => ApplyEntries(parse, entries[1..], acc)
      case Success(Some(binding)) => ApplyEntries(parse, entries[1..], acc[binding.0 := binding.1])
  }

  /** The archive configuration an `ARCHIVE_CONFIG` value denotes. */
  function ArchiveConfig(archiveConfig: Option<string>): Result<map<string, int>, ConfigError> {
    match archiveConfig
    case None => Success(map[])
    case Some(s) => ApplyEntries(ParseEntry, Split(s, '|'), map[])
  }

  /** The configuration the source computes, NaN bindings included. */
  function ArchiveConfigAsWritten(archiveConfig: Option<string>): (r: Result<map<string, JsNumber>, ConfigError>)
    ensures r.Success? ==> forall category :: category in r.value && r.value[category].Num? ==> r.value[category].value > 0
  {
    match archiveConfig
    case None => Success(map[])
    case Some(s) =>
      var entries := Split(s, '|');
      var r := ApplyEntries(ParseEntryAsWritten, entries, map[]);
      ApplyEntriesKeep(ParseEntryAsWritten, entries, map[], PositiveOrNaN);
      assert r.Success? ==> forall category :: category in r.value ==> PositiveOrNaN(r.value[category]);
      r
  }

  /** A TTL as written is either NaN or positive. */
  predicate PositiveOrNaN(ttl: JsNumber) {
    ttl.Num? ==> ttl.value > 0
  }

  /** A property every binding of the step has, and every value of the
      starting map has, holds of every value of the result. */
  lemma {:induction false} ApplyEntriesKeep<V>(parse: string -> Result<Option<(string, V)>, ConfigError>,
                                               entries: seq<string>, acc: map<string, V>, ok: V -> bool)
    requires forall e :: parse(e).Success? && parse(e).value.Some? ==> ok(parse(e).value.value.1)
    requires forall category :: category in acc ==> ok(acc[category])
    ensures var r := ApplyEntries(parse, entries, acc);
      r.Success? ==> forall category :: category in r.value ==> ok(r.value[category])
  {
    if entries != [] {
      var p := parse(entries[0]);
      if p.Success? {
        if p.value.Some? {
          var next := acc[p.value.value.0 := p.value.value.1];
          assert forall category :: category in next ==> ok(next[category]);
          assert ApplyEntries(parse, entries, acc) == ApplyEntries(parse, entries[1..], next);
          ApplyEntriesKeep(parse, entries[1..], next, ok);
        } else {
          assert ApplyEntries(parse, entries, acc) == ApplyEntries(parse, entries[1..], acc);
          ApplyEntriesKeep(parse, entries[1..], acc, ok);
        }
      }
    }
  }

  /** `parseArchiveConfig`: an absent configuration is the empty map;
      otherwise the `|`-separated entries are walked. Every TTL in a
      returned map is positive. */
  method ParseArchiveConfig(archiveConfig: Option<string>) returns (r: Result<map<string, int>, ConfigError>)
    ensures r == ArchiveConfig(archiveConfig)
    ensures r.Success? ==> forall category :: category in r.value ==> r.value[category] > 0
  {
    if archiveConfig.None? {
      return Success(map[]);
    }
    r := ParseEntries(ParseEntry, Split(archiveConfig.value, '|'));
  }

  /** The `forEach` over the entries with the per-entry step `parse`: add one
      binding to the map per entry that gives one, and give up at the first
      entry rejected. When every binding `parse` gives has a positive TTL,
      so has every binding in the returned map. */
  method ParseEntries(parse: string -> Result<Option<(string, int)>, ConfigError>, entries: seq<string>)
    returns (r: Result<map<string, int>, ConfigError>)
    requires forall e :: parse(e).Success? && parse(e).value.Some? ==> parse(e).value.value.1 > 0
    ensures r == ApplyEntries(parse, entries, map[])
    ensures r.Success? ==> forall category :: category in r.value ==> r.value[category] > 0
  {
    var result: map<string, int> := map[];
    assert entries[0..] == entries;
    var k := 0;
    while k < |entries|
      invariant 0 <= k <= |entries|
      invariant ApplyEntries(parse, entries[k..], result) == ApplyEntries(parse, entries, map[])
      invariant forall category :: category in result ==> result[category] > 0
    {
      var parsed := parse(entries[k]);
      ApplyEntriesAdvance(parse, entries, k, result);
      match parsed {
        case Failure(e) =>
          return Failure(e);
        case Success(None) =>
        case Success(Some(binding)) =>
          result := result[binding.0 := binding.1];
      }
      k := k + 1;
    }
    return Success(result);
  }

  // ---------------------------------------------------------------------------
  // Properties of the configuration parser
  // ---------------------------------------------------------------------------

  /** Blank entries are skipped: parsing gives what parsing only the
      non-blank entries gives. */
  lemma {:induction false} BlankEntriesSkipped<V>(parse: string -> Result<Option<(string, V)>, ConfigError>,
                                                  entries: seq<string>, acc: map<string, V>)
    requires forall e :: parse(e) == Success(None) <==> AllWhitespace(e)
    ensures ApplyEntries(parse, entries, acc)
         == ApplyEntries(parse, Filter(e => !AllWhitespace(e), entries), acc)
  {
    var nonBlank := e => !AllWhitespace(e);
    if entries != [] {
      var rest := Filter(nonBlank, entries[1..]);
      BlankEntriesSkipped(parse, entries[1..], acc);
      if AllWhitespace(entries[0]) {
        assert Filter(nonBlank, entries) == rest;
      } else {
        assert Filter(nonBlank, entries) == [entries[0]] + rest;
        assert ([entries[0]] + rest)[1..] == rest;
        match parse(entries[0]) {
          case Failure(_) =>
          case Success(None) =>
          case Success(Some(binding)) =>
            BlankEntriesSkipped(parse, entries[1..], acc[binding.0 := binding.1]);
        }
      }
    }
  }

  /** An absent configuration, and one made only of white space, give the
      empty map. */
  lemma BlankConfigIsEmpty(s: string)
    requires AllWhitespace(s)
    ensures ArchiveConfig(None) == Success(map[])
    ensures ArchiveConfig(Some(s)) == Success(map[])
  {
    assert '|' !in s;
    SplitWithoutSeparator(s, '|');
    var entries := Split(s, '|');
    assert entries == [s] && entries[1..] == [];
    assert ParseEntry(s) == Success(None);
    ApplyEntriesStep(ParseEntry, entries, map[]);
  }

  /** Parsing succeeds exactly when every entry is accepted; one rejected
      entry fails the whole parse. */
  lemma {:induction false} ApplyEntriesSucceedsIff<V>(parse: string -> Result<Option<(string, V)>, ConfigError>,
                                                      entries: seq<string>, acc: map<string, V>)
    ensures ApplyEntries(parse, entries, acc).Success?
        <==> forall i :: 0 <= i < |entries| ==> parse(entries[i]).Success?
  {
    if entries != [] {
      ApplyEntriesSucceedsIff(parse, entries[1..], acc);
      match parse(entries[0]) {
        case Failure(_) =>
        case Success(None) =>
        case Success(Some(binding)) =>
          ApplyEntriesSucceedsIff(parse, entries[1..], acc[binding.0 := binding.1]);
      }
      assert forall i :: 1 <= i < |entries| ==> entries[i] == entries[1..][i - 1];
    }
  }

  /** The same, over the entries rather than their positions. */
  lemma ApplyEntriesSucceedsIffMembers<V>(parse: string -> Result<Option<(string, V)>, ConfigError>,
                                          entries: seq<string>, acc: map<string, V>)
    ensures ApplyEntries(parse, entries, acc).Success?
        <==> forall e :: e in entries ==> parse(e).Success?
  {
    ApplyEntriesSucceedsIff(parse, entries, acc);
  }

  lemma ArchiveConfigSucceedsIff(s: string)
    ensures ArchiveConfig(Some(s)).Success?
        <==> forall e :: e in Split(s, '|') ==> ParseEntry(e).Success?
  {
    ApplyEntriesSucceedsIffMembers(ParseEntry, Split(s, '|'), map[]);
  }

  /** A category may contain neither separator and has no surrounding white
      space. */
  predicate ValidLabel(category: string) {
    category != "" && IsTrimmed(category) && ',' !in category && '|' !in category
  }

  /** An entry made of two non-blank parts without `,` around one `,`
      reads as that pair. */
  lemma EntryShapeOfPair(left: string, right: string)
    requires ',' !in left && ',' !in right
    requires !AllWhitespace(left) && !AllWhitespace(right)
    ensures EntryShapeOf(left + "," + right) == Pair(left, right)
  {
    var entry := left + "," + right;
    assert entry == left + [','] + right;
    assert !AllWhitespace(entry) by {
      var i :| 0 <= i < |left| && !IsWhitespace(left[i]);
      assert entry[i] == left[i];
    }
    assert Split(entry, ',') == [left, right] by {
      SplitAtFirstSeparator(left, right, ',');
      SplitWithoutSeparator(right, ',');
    }
    EntryShapeOfParts(entry, left, right);
  }

  /** An entry that is not blank and splits into two non-blank parts. */
  lemma EntryShapeOfParts(entry: string, left: string, right: string)
    requires !AllWhitespace(entry) && !AllWhitespace(left) && !AllWhitespace(right)
    requires Split(entry, ',') == [left, right]
    ensures EntryShapeOf(entry) == Pair(left, right)
  {
    assert Trim(entry) != "" && Trim(left) != "" && Trim(right) != "";
  }

  /** One step of the walk over the entries. */
  lemma ApplyEntriesStep<V>(parse: string -> Result<Option<(string, V)>, ConfigError>,
                            entries: seq<string>, acc: map<string, V>)
    requires entries != []
    ensures parse(entries[0]).Failure? ==> ApplyEntries(parse, entries, acc) == Failure(parse(entries[0]).error)
    ensures parse(entries[0]) == Success(None) ==> ApplyEntries(parse, entries, acc) == ApplyEntries(parse, entries[1..], acc)
    ensures parse(entries[0]).Success? && parse(entries[0]).value.Some? ==>
      var binding := parse(entries[0]).value.value;
      ApplyEntries(parse, entries, acc) == ApplyEntries(parse, entries[1..], acc[binding.0 := binding.1])
  {
  }

  /** The walk from entry `k` on, one entry further. */
  lemma ApplyEntriesAdvance<V>(parse: string -> Result<Option<(string, V)>, ConfigError>,
                               entries: seq<string>, k: nat, acc: map<string, V>)
    requires k < |entries|
    ensures parse(entries[k]).Failure? ==> ApplyEntries(parse, entries[k..], acc) == Failure(parse(entries[k]).error)
    ensures parse(entries[k]) == Success(None) ==> ApplyEntries(parse, entries[k..], acc) == ApplyEntries(parse, entries[k + 1..], acc)
    ensures parse(entries[k]).Success? && parse(entries[k]).value.Some? ==>
      var binding := parse(entries[k]).value.value;
      ApplyEntries(parse, entries[k..], acc) == ApplyEntries(parse, entries[k + 1..], acc[binding.0 := binding.1])
  {
    ApplyEntriesStep(parse, entries[k..], acc);
    assert entries[k..][0] == entries[k] && entries[k..][1..] == entries[k + 1..];
  }

  /** Walking a single entry. */
  lemma ApplyEntriesSingle<V>(parse: string -> Result<Option<(string, V)>, ConfigError>,
                              entry: string, acc: map<string, V>)
    ensures parse(entry).Failure? ==> ApplyEntries(parse, [entry], acc) == Failure(parse(entry).error)
    ensures parse(entry) == Success(None) ==> ApplyEntries(parse, [entry], acc) == Success(acc)
    ensures parse(entry).Success? && parse(entry).value.Some? ==>
      var binding := parse(entry).value.value;
      ApplyEntries(parse, [entry], acc) == Success(acc[binding.0 := binding.1])
  {
    ApplyEntriesStep(parse, [entry], acc);
    assert [entry][1..] == [];
  }

  /** Walking entries each of which binds a pair folds the pairs into the map. */
  lemma {:induction false} ApplyEntriesBindAll(parse: string -> Result<Option<(string, int)>, ConfigError>,
                                               entries: seq<string>, pairs: seq<(string, nat)>, acc: map<string, int>)
    requires |entries| == |pairs|
    requires forall i :: 0 <= i < |entries| ==> parse(entries[i]) == Success(Some((pairs[i].0, pairs[i].1 as int)))
    ensures ApplyEntries(parse, entries, acc) == Success(PairsToMap(pairs, acc))
  {
    if entries != [] {
      ApplyEntriesStep(parse, entries, acc);
      ApplyEntriesBindAll(parse, entries[1..], pairs[1..], acc[pairs[0].0 := pairs[0].1]);
    }
  }

  /** Two parsers that agree entry by entry, up to reading the TTL as a
      JavaScript number, agree on the whole walk. */
  lemma {:induction false} ApplyEntriesAgreeWith(parse: string -> Result<Option<(string, int)>, ConfigError>,
                                                 parseJs: string -> Result<Option<(string, JsNumber)>, ConfigError>,
                                                 entries: seq<string>, acc: map<string, int>)
    requires forall i :: 0 <= i < |entries| ==> parseJs(entries[i]) == ToJsEntry(parse(entries[i]))
    ensures ApplyEntries(parseJs, entries, ToJsNumbers(acc)) == ToJsResult(ApplyEntries(parse, entries, acc))
  {
    if entries != [] {
      ApplyEntriesStep(parse, entries, acc);
      ApplyEntriesStep(parseJs, entries, ToJsNumbers(acc));
      var r := parse(entries[0]);
      if r.Success? && r.value.Some? {
        var binding := r.value.value;
        assert ToJsNumbers(acc)[binding.0 := Num(binding.1)] == ToJsNumbers(acc[binding.0 := binding.1]);
        ApplyEntriesAgreeWith(parse, parseJs, entries[1..], acc[binding.0 := binding.1]);
      } else if r.Success? {
        ApplyEntriesAgreeWith(parse, parseJs, entries[1..], acc);
      }
    }
  }

  /** A pair entry whose TTL parses to a positive number binds the trimmed
      category to it. */
  lemma ParseEntryOfPair(entry: string, category: string, token: string, ttl: int)
    requires EntryShapeOf(entry) == Pair(category, token)
    requires ParseInt(token) == Num(ttl) && ttl > 0
    ensures ParseEntry(entry) == Success(Some((Trim(category), ttl)))
  {
  }

  /** A well-formed entry, with white space around either token, binds the
      trimmed category to the TTL. */
  lemma ParseEntryPadded(w1: string, category: string, w2: string, w3: string, ttl: nat, w4: string)
    requires AllWhitespace(w1) && AllWhitespace(w2) && AllWhitespace(w3) && AllWhitespace(w4)
    requires ValidLabel(category) && ttl > 0
    ensures ParseEntry(w1 + category + w2 + "," + w3 + DecimalString(ttl) + w4) == Success(Some((category, ttl)))
  {
    var d := DecimalString(ttl);
    var left := w1 + category + w2;
    var right := w3 + d + w4;
    assert w1 + category + w2 + "," + w3 + d + w4 == left + "," + right;
    assert ',' !in left;
    assert ',' !in right;
    assert !AllWhitespace(left) by {
      assert left[|w1|] == category[0];
    }
    assert !AllWhitespace(right) by {
      assert right[|w3|] == d[0];
    }
    EntryShapeOfPair(left, right);
    TrimPadded(w1, category, w2);
    ParseIntDecimal(w3, ttl, w4);
  }

  /** A `category,ttl` entry without padding binds the category to the TTL. */
  lemma ParseEntryText(category: string, ttl: nat)
    requires ValidLabel(category) && ttl > 0
    ensures ParseEntry(category + "," + DecimalString(ttl)) == Success(Some((category, ttl)))
  {
    var d := DecimalString(ttl);
    assert !AllWhitespace(category) by { assert !IsWhitespace(category[0]); }
    assert !AllWhitespace(d) by { assert !IsWhitespace(d[0]); }
    assert ',' !in d;
    EntryShapeOfPair(category, d);
    TrimmedIsUnchanged(category);
    ParseIntUnpadded(ttl);
    ParseEntryOfPair(category + "," + d, category, d, ttl);
  }

  /** The text of a configuration with one `category,ttl` entry per pair. */
  function ConfigText(pairs: seq<(string, nat)>): string
    requires |pairs| >= 1
  {
    Join(EntryTexts(pairs), '|')
  }

  function EntryTexts(pairs: seq<(string, nat)>): (texts: seq<string>)
    ensures |texts| == |pairs|
  {
    if pairs == [] then [] else [pairs[0].0 + "," + DecimalString(pairs[0].1)] + EntryTexts(pairs[1..])
  }

  lemma {:induction false} EntryTextsAt(pairs: seq<(string, nat)>, i: nat)
    requires i < |pairs|
    ensures EntryTexts(pairs)[i] == pairs[i].0 + "," + DecimalString(pairs[i].1)
  {
    if i > 0 {
      EntryTextsAt(pairs[1..], i - 1);
    }
  }

  /** The map the pairs denote, a later pair for a category replacing an
      earlier one. */
  function PairsToMap(pairs: seq<(string, nat)>, acc: map<string, int>): map<string, int> {
    if pairs == [] then acc else PairsToMap(pairs[1..], acc[pairs[0].0 := pairs[0].1])
  }

  lemma ApplyEntryTexts(pairs: seq<(string, nat)>, acc: map<string, int>)
    requires forall i :: 0 <= i < |pairs| ==> ValidLabel(pairs[i].0) && pairs[i].1 > 0
    ensures ApplyEntries(ParseEntry, EntryTexts(pairs), acc) == Success(PairsToMap(pairs, acc))
  {
    var texts := EntryTexts(pairs);
    forall i | 0 <= i < |texts|
      ensures ParseEntry(texts[i]) == Success(Some((pairs[i].0, pairs[i].1 as int)))
    {
      EntryTextsAt(pairs, i);
      ParseEntryText(pairs[i].0, pairs[i].1);
    }
    ApplyEntriesBindAll(ParseEntry, texts, pairs, acc);
  }

  lemma {:induction false} EntryTextsHaveNoBar(pairs: seq<(string, nat)>)
    requires forall i :: 0 <= i < |pairs| ==> ValidLabel(pairs[i].0)
    ensures forall i :: 0 <= i < |pairs| ==> '|' !in EntryTexts(pairs)[i]
  {
    if pairs != [] {
      EntryTextsHaveNoBar(pairs[1..]);
      var d := DecimalString(pairs[0].1);
      assert '|' !in d;
      assert forall i :: 1 <= i < |pairs| ==> EntryTexts(pairs)[i] == EntryTexts(pairs[1..])[i - 1];
    }
  }

  /** Round trip: a configuration written out from valid `category,ttl` pairs
      parses back to the map of those pairs. */
  lemma ConfigRoundTrip(pairs: seq<(string, nat)>)
    requires |pairs| >= 1
    requires forall i :: 0 <= i < |pairs| ==> ValidLabel(pairs[i].0) && pairs[i].1 > 0
    ensures ArchiveConfig(Some(ConfigText(pairs))) == Success(PairsToMap(pairs, map[]))
  {
    EntryTextsHaveNoBar(pairs);
    SplitJoin(EntryTexts(pairs), '|');
    ApplyEntryTexts(pairs, map[]);
  }

  /** An entry that is not blank and has no `,` (such as `AuditEvent:15780000`)
      is rejected, and so is the whole configuration holding it. */
  lemma EntryWithoutCommaRejected(entry: string)
    requires ',' !in entry && '|' !in entry && !AllWhitespace(entry)
    ensures ParseEntry(entry) == Failure(InvalidArchiveConfig(entry))
    ensures ArchiveConfig(Some(entry)) == Failure(InvalidArchiveConfig(entry))
  {
    SplitWithoutSeparator(entry, ',');
    SplitWithoutSeparator(entry, '|');
  }

  /** A TTL of zero or less is rejected, naming the raw TTL token, whatever
      white space surrounds the category. */
  lemma NonPositiveTtlRejected(category: string, token: string)
    requires ',' !in category && !AllWhitespace(category)
    requires ',' !in token && !AllWhitespace(token)
    requires ParseInt(token).Num? && ParseInt(token).value <= 0
    ensures ParseEntry(category + "," + token) == Failure(InvalidTtlTime(token))
  {
    EntryShapeOfPair(category, token);
  }

  // ---------------------------------------------------------------------------
  // The NaN TTL the source accepts
  // ---------------------------------------------------------------------------

  /** A pair entry whose TTL is not a number: the source binds NaN, the
      corrected step rejects the token. */
  lemma NaNEntry(entry: string, category: string, token: string)
    requires EntryShapeOf(entry) == Pair(category, token)
    requires ParseInt(token) == NaN
    ensures ParseEntryAsWritten(entry) == Success(Some((Trim(category), NaN)))
    ensures ParseEntry(entry) == Failure(InvalidTtlTime(token))
  {
  }

  /** A configuration whose TTL is not a number: the source binds the category
      to NaN, the corrected parser rejects the entry. */
  lemma NonNumericTtlStoredAsNaN(category: string, token: string)
    requires ValidLabel(category) && ',' !in token && '|' !in token && !AllWhitespace(token)
    requires ParseInt(token) == NaN
    ensures ArchiveConfigAsWritten(Some(category + "," + token)) == Success(map[category := NaN])
    ensures ArchiveConfig(Some(category + "," + token)) == Failure(InvalidTtlTime(token))
  {
    var entry := category + "," + token;
    assert '|' !in entry;
    assert ArchiveConfigAsWritten(Some(entry)) == Success(map[category := NaN]) by {
      NaNEntryText(category, token);
      SingleEntryConfig(entry);
      ApplyEntriesSingle(ParseEntryAsWritten, entry, map[]);
    }
    assert ArchiveConfig(Some(entry)) == Failure(InvalidTtlTime(token)) by {
      NaNEntryText(category, token);
      SingleEntryConfig(entry);
      ApplyEntriesSingle(ParseEntry, entry, map[]);
    }
  }

  lemma NaNEntryText(category: string, token: string)
    requires ValidLabel(category) && ',' !in token && !AllWhitespace(token)
    requires ParseInt(token) == NaN
    ensures ParseEntryAsWritten(category + "," + token) == Success(Some((category, NaN)))
    ensures ParseEntry(category + "," + token) == Failure(InvalidTtlTime(token))
  {
    assert !AllWhitespace(category) by { assert !IsWhitespace(category[0]); }
    EntryShapeOfPair(category, token);
    TrimmedIsUnchanged(category);
    NaNEntry(category + "," + token, category, token);
  }

  /** A configuration without `|` is one entry. */
  lemma SingleEntryConfig(entry: string)
    requires '|' !in entry
    ensures ArchiveConfig(Some(entry)) == ApplyEntries(ParseEntry, [entry], map[])
    ensures ArchiveConfigAsWritten(Some(entry)) == ApplyEntries(ParseEntryAsWritten, [entry], map[])
  {
    SplitWithoutSeparator(entry, '|');
  }

  /** The concrete instance: `Patient,abc`. The two strings are parameters
      fixed by the precondition rather than literals in the conclusion: the
      verifier evaluates a literal argument of `Trim`, `Split` and
      `ParseInt` eagerly, which makes the literal form of this lemma very
      costly to prove, while the statement is the same. */
  lemma PatientAbcStoredAsNaN(category: string, token: string)
    requires category == "Patient" && token == "abc"
    ensures ArchiveConfigAsWritten(Some(category + "," + token)) == Success(map[category := NaN])
    ensures ArchiveConfig(Some(category + "," + token)) == Failure(InvalidTtlTime(token))
  {
    ParseIntNoDigits(token);
    assert !AllWhitespace(token) by { assert !IsWhitespace(token[0]); }
    assert ValidLabel(category);
    NonNumericTtlStoredAsNaN(category, token);
  }

  function ToJsNumbers(m: map<string, int>): map<string, JsNumber> {
    map category | category in m :: Num(m[category])
  }

  function ToJsResult(r: Result<map<string, int>, ConfigError>): Result<map<string, JsNumber>, ConfigError> {
    match r
    case Success(m) => Success(ToJsNumbers(m))
    case Failure(e) => Failure(e)
  }

  /** The entry's as-written outcome binds its category to NaN. */
  predicate BindsNaN(entry: string) {
    var r := ParseEntryAsWritten(entry);
    r.Success? && r.value.Some? && r.value.value.1 == NaN
  }

  /** One entry's outcome with its TTL read as a JavaScript number. */
  function ToJsEntry(r: Result<Option<(string, int)>, ConfigError>): Result<Option<(string, JsNumber)>, ConfigError> {
    match r
    case Failure(e) => Failure(e)
    case Success(None) => Success(None)
    case Success(Some(binding)) => Success(Some((binding.0, Num(binding.1))))
  }

  lemma EntryAgrees(entry: string)
    requires !BindsNaN(entry)
    ensures ParseEntryAsWritten(entry) == ToJsEntry(ParseEntry(entry))
  {
    match EntryShapeOf(entry)
    case Blank =>
    case Malformed =>
    case Pair(category, token) =>
      PairStepsAgree(category, token, ParseInt(token));
  }

  lemma PairStepsAgree(category: string, token: string, ttl: JsNumber)
    requires PairStepAsWritten(category, token, ttl) != Success(Some((Trim(category), NaN)))
    ensures PairStepAsWritten(category, token, ttl) == ToJsEntry(PairStep(category, token, ttl))
  {
  }

  lemma ApplyEntriesAgree(entries: seq<string>, acc: map<string, int>)
    requires forall i :: 0 <= i < |entries| ==> !BindsNaN(entries[i])
    ensures ApplyEntries(ParseEntryAsWritten, entries, ToJsNumbers(acc))
         == ToJsResult(ApplyEntries(ParseEntry, entries, acc))
  {
    forall i | 0 <= i < |entries|
      ensures ParseEntryAsWritten(entries[i]) == ToJsEntry(ParseEntry(entries[i]))
    {
      EntryAgrees(entries[i]);
    }
    ApplyEntriesAgreeWith(ParseEntry, ParseEntryAsWritten, entries, acc);
  }

  /** Apart from the NaN case the corrected parser agrees with the source:
      on a configuration none of whose entries binds NaN as written, both
      fail with the same error or give the same map. */
  lemma CorrectedAgreesWithoutNaN(s: string)
    requires forall e :: e in Split(s, '|') ==> !BindsNaN(e)
    ensures ArchiveConfigAsWritten(Some(s)) == ToJsResult(ArchiveConfig(Some(s)))
  {
    assert ToJsNumbers(map[]) == map[];
    ApplyEntriesAgree(Split(s, '|'), map[]);
  }

  // ===========================================================================
  // filterRemovedRecordsFromTTL
  // ===========================================================================

  /** A REMOVE made by DynamoDB's own TTL sweep (a service identity whose
      principal is DynamoDB), as opposed to a delete a user made. */
  predicate IsRemovedByTTL(record: StreamRecord) {
    && record.eventName == REMOVE
    && record.userIdentity.Some?
    && record.userIdentity.value.identityType == "Service"
    && record.userIdentity.value.principalId == ServicePrincipal
  }

  /** `filterRemovedRecordsFromTTL`: the records removed by TTL expiry, in
      their order, each as often as in the input. */
  function FilterRemovedRecordsFromTTL(records: seq<StreamRecord>): (r: seq<StreamRecord>)
    ensures IsSubsequence(r, records)
    ensures forall x :: multiset(r)[x] == if IsRemovedByTTL(x) then multiset(records)[x] else 0
  {
    FilterSpec(IsRemovedByTTL, records);
    Filter(IsRemovedByTTL, records)
  }

  lemma FilterSpec<T>(p: T -> bool, s: seq<T>)
    ensures IsSubsequence(Filter(p, s), s)
    ensures forall x :: multiset(Filter(p, s))[x] == if p(x) then multiset(s)[x] else 0
  {
    FilterIsSubsequence(p, s);
    forall x
      ensures multiset(Filter(p, s))[x] == if p(x) then multiset(s)[x] else 0
    {
      FilterMultiplicity(p, s, x);
    }
  }

  /** A record is kept exactly when it is in the input and was removed by
      the TTL sweep. */
  lemma RemovedByTTLMembership(records: seq<StreamRecord>, x: StreamRecord)
    ensures x in FilterRemovedRecordsFromTTL(records) <==> x in records && IsRemovedByTTL(x)
  {
    FilterMembership(IsRemovedByTTL, records, x);
  }

  /** Filtering the filtered records changes nothing. */
  lemma FilterRemovedRecordsFromTTLIdempotent(records: seq<StreamRecord>)
    ensures FilterRemovedRecordsFromTTL(FilterRemovedRecordsFromTTL(records))
         == FilterRemovedRecordsFromTTL(records)
  {
    FilterIdempotent(IsRemovedByTTL, records);
  }

  // ===========================================================================
  // isEqualExceptTTL
  // ===========================================================================

  /** `isEqualExceptTTL`: deep equality of the two images once the top-level
      TTL attribute is dropped from each. */
  function IsEqualExceptTTL(image1: Image, image2: Image): (equal: bool)
    ensures equal ==> image1.Keys - {TtlFieldName} == image2.Keys - {TtlFieldName}
  {
    assert (image1 - {TtlFieldName}).Keys == image1.Keys - {TtlFieldName};
    assert (image2 - {TtlFieldName}).Keys == image2.Keys - {TtlFieldName};
    image1 - {TtlFieldName} == image2 - {TtlFieldName}
  }

  /** The images have the same attributes with the same values, the TTL
      attribute aside. */
  ghost predicate AgreeOutsideTtl(image1: Image, image2: Image) {
    forall name :: name != TtlFieldName ==>
      (name in image1 <==> name in image2) && (name in image1 ==> image1[name] == image2[name])
  }

  /** The comparison holds exactly when the images agree on every attribute
      other than the TTL one: in presence and in (deep) value. */
  lemma EqualExceptTTLIff(image1: Image, image2: Image)
    ensures IsEqualExceptTTL(image1, image2) <==> AgreeOutsideTtl(image1, image2)
  {
    var a, b := image1 - {TtlFieldName}, image2 - {TtlFieldName};
    if AgreeOutsideTtl(image1, image2) {
      assert a.Keys == b.Keys;
      assert forall name :: name in a ==> a[name] == b[name];
    }
    if a == b {
      forall name | name != TtlFieldName
        ensures (name in image1 <==> name in image2) && (name in image1 ==> image1[name] == image2[name])
      {
        assert name in image1 <==> name in a;
        assert name in image2 <==> name in b;
      }
    }
  }

  /** The comparison is an equivalence: reflexive, symmetric, transitive. */
  lemma EqualExceptTTLIsEquivalence(a: Image, b: Image, c: Image)
    ensures IsEqualExceptTTL(a, a)
    ensures IsEqualExceptTTL(a, b) == IsEqualExceptTTL(b, a)
    ensures IsEqualExceptTTL(a, b) && IsEqualExceptTTL(b, c) ==> IsEqualExceptTTL(a, c)
  {
  }

  /** Images that differ only in the TTL attribute compare equal: a changed
      TTL value, and a TTL present in one image only. */
  lemma TtlOnlyChangeIsEqual(image: Image, ttl: Value, otherTtl: Value)
    ensures IsEqualExceptTTL(image, image[TtlFieldName := ttl])
    ensures IsEqualExceptTTL(image[TtlFieldName := otherTtl], image[TtlFieldName := ttl])
    ensures IsEqualExceptTTL(image - {TtlFieldName}, image[TtlFieldName := ttl])
  {
    EqualExceptTTLIff(image, image[TtlFieldName := ttl]);
    EqualExceptTTLIff(image[TtlFieldName := otherTtl], image[TtlFieldName := ttl]);
    EqualExceptTTLIff(image - {TtlFieldName}, image[TtlFieldName := ttl]);
  }

  /** Any difference outside the TTL attribute, in presence or in value,
      makes the comparison false. */
  lemma OtherDifferenceIsUnequal(image1: Image, image2: Image, name: string)
    requires name != TtlFieldName
    requires (name in image1) != (name in image2) || (name in image1 && name in image2 && image1[name] != image2[name])
    ensures !IsEqualExceptTTL(image1, image2)
  {
    EqualExceptTTLIff(image1, image2);
  }

  // ===========================================================================
  // filterRecordsNeedUpdateTTL
  // ===========================================================================

  /** `NewImage.resourceType.S`: the resource type the TTL policy is keyed by. */
  function ResourceType(record: StreamRecord): Option<string> {
    match record.newImage
    case None => None
    case Some(image) => StringAttribute(image, "resourceType")
  }

  /** The source reads `NewImage.resourceType.S` of every record with a new
      image, and `NewImage.documentStatus.S` of those whose resource type the
      policy covers; a missing attribute there is a TypeError. */
  predicate ClassifiableForUpdate(record: StreamRecord, ttls: map<string, int>) {
    match record.newImage
    case None => true
    case Some(image) =>
      "resourceType" in image
      && (ResourceType(record).Some? && ResourceType(record).value in ttls ==> "documentStatus" in image)
  }

  /** The keep-or-drop decision for one record: its resource type must be in
      the policy, and it is either an INSERT of an AVAILABLE document or a
      MODIFY leaving it AVAILABLE or DELETED that changed something other
      than the TTL attribute. A missing old image compares as `{}`. */
  predicate NeedsUpdateTTL(record: StreamRecord, ttls: map<string, int>)
    ensures NeedsUpdateTTL(record, ttls) ==> ReadyForTtlUpdate(record, ttls) && record.eventName != REMOVE
  {
    match record.newImage
    case None => false
    case Some(image) =>
      var resourceType := StringAttribute(image, "resourceType");
      var status := StringAttribute(image, "documentStatus");
      && resourceType.Some? && resourceType.value in ttls
      && (|| (record.eventName == INSERT && status == Some("AVAILABLE"))
          || (&& record.eventName == MODIFY
              && (status == Some("AVAILABLE") || status == Some("DELETED"))
              && !IsEqualExceptTTL(record.oldImage.GetOr(map[]), image)))
  }

  /** A record whose TTL statements can be generated: it has a new image
      whose resource type the policy covers. */
  predicate ReadyForTtlUpdate(record: StreamRecord, ttls: map<string, int>) {
    ResourceType(record).Some? && ResourceType(record).value in ttls
  }

  /** `filterRecordsNeedUpdateTTL`: the records that need a TTL written back,
      in their order, each as often as in the input; every one of them is
      ready for statement generation. */
  function FilterRecordsNeedUpdateTTL(records: seq<StreamRecord>, ttls: map<string, int>): (r: seq<StreamRecord>)
    requires forall i :: 0 <= i < |records| ==> ClassifiableForUpdate(records[i], ttls)
    ensures IsSubsequence(r, records)
    ensures forall x :: multiset(r)[x] == if NeedsUpdateTTL(x, ttls) then multiset(records)[x] else 0
    ensures forall i :: 0 <= i < |r| ==> ReadyForTtlUpdate(r[i], ttls)
  {
    var p := x => NeedsUpdateTTL(x, ttls);
    FilterSpec(p, records);
    Filter(p, records)
  }

  /** What decides a record's fate: no new image or an uncovered resource
      type drops it; an INSERT is kept iff AVAILABLE; a MODIFY is kept iff
      AVAILABLE or DELETED and some attribute other than the TTL changed;
      anything else (a REMOVE, a LOCKED document) is dropped. */
  lemma UpdateDecision(record: StreamRecord, ttls: map<string, int>)
    ensures record.newImage.None? ==> !NeedsUpdateTTL(record, ttls)
    ensures NeedsUpdateTTL(record, ttls) ==> ReadyForTtlUpdate(record, ttls)
    ensures record.eventName == REMOVE ==> !NeedsUpdateTTL(record, ttls)
    ensures ReadyForTtlUpdate(record, ttls) && record.eventName == INSERT ==>
      (NeedsUpdateTTL(record, ttls) <==> StringAttribute(record.newImage.value, "documentStatus") == Some("AVAILABLE"))
    ensures ReadyForTtlUpdate(record, ttls) && record.eventName == MODIFY ==>
      (NeedsUpdateTTL(record, ttls) <==>
        && StringAttribute(record.newImage.value, "documentStatus") in {Some("AVAILABLE"), Some("DELETED")}
        && !AgreeOutsideTtl(record.oldImage.GetOr(map[]), record.newImage.value))
  {
    if record.newImage.Some? {
      EqualExceptTTLIff(record.oldImage.GetOr(map[]), record.newImage.value);
    }
  }

  /** The loop guard: a MODIFY whose images differ in nothing but the TTL
      attribute (the stream echo of this handler's own write-back) is never
      kept. */
  lemma LoopGuard(records: seq<StreamRecord>, ttls: map<string, int>, record: StreamRecord)
    requires forall i :: 0 <= i < |records| ==> ClassifiableForUpdate(records[i], ttls)
    requires record.eventName == MODIFY && record.oldImage.Some? && record.newImage.Some?
    requires AgreeOutsideTtl(record.oldImage.value, record.newImage.value)
    ensures record !in FilterRecordsNeedUpdateTTL(records, ttls)
  {
    EqualExceptTTLIff(record.oldImage.value, record.newImage.value);
    FilterMembership(x => NeedsUpdateTTL(x, ttls), records, record);
  }

  /** With an empty policy nothing is kept for a TTL update. */
  lemma EmptyPolicyKeepsNothing(records: seq<StreamRecord>)
    requires forall i :: 0 <= i < |records| ==> ClassifiableForUpdate(records[i], map[])
    ensures FilterRecordsNeedUpdateTTL(records, map[]) == []
  {
  }

  /** No record is both archived and given a TTL update: the archive side
      takes only REMOVEs, the update side never does. */
  lemma ArchiveAndUpdateDisjoint(records: seq<StreamRecord>, ttls: map<string, int>, x: StreamRecord)
    requires forall i :: 0 <= i < |records| ==> ClassifiableForUpdate(records[i], ttls)
    ensures !(x in FilterRemovedRecordsFromTTL(records) && x in FilterRecordsNeedUpdateTTL(records, ttls))
  {
    RemovedByTTLMembership(records, x);
    FilterMembership(y => NeedsUpdateTTL(y, ttls), records, x);
  }
}
