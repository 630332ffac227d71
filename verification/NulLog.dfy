/** The NUL-delimited git logs: change types from `--name-status -z`, joined with the line
    counts from `--numstat -z`. */
module NulLog {
  import opened Text
  import opened DiffEntries

  const NUL := 0 as char

  // ----- Fields

  function TrimLeft(s: string): string {
    if s != "" && (s[0] == '\n' || s[0] == '\r') then TrimLeft(s[1..]) else s
  }

  /** The fields the parsers look at: leading line breaks removed, empty ones dropped. */
  function Fields(raw: seq<string>): seq<string>
    decreases |raw|
  {
    if raw == [] then []
    else if TrimLeft(raw[0]) == "" then Fields(raw[1..])
    else [TrimLeft(raw[0])] + Fields(raw[1..])
  }

  function PutEntry(entries: Entries, hash: string, path: string, e: FileDiffEntry): Entries {
    var files := if hash in entries then entries[hash] else map[];
    entries[hash := files[path := e]]
  }

  // ----- Name-status

  datatype NameScan = NameScan(entries: Entries, hash: string, pending: string)

  function NameStep(s: NameScan, field: string): NameScan {
    if "COMMIT:" <= field then NameScan(WithCommit(s.entries, field[7..]), field[7..], "")
    else if s.hash == "" then s
    else if s.pending == "" then s.(pending := field)
    else NameScan(PutEntry(s.entries, s.hash, field, FileDiffEntry(s.pending, field, 0, 0, "")), s.hash, "")
  }

  function NameSteps(s: NameScan, fields: seq<string>): NameScan
    decreases |fields|
  {
    if fields == [] then s else NameSteps(NameStep(s, fields[0]), fields[1..])
  }

  /** The table read from a name-status text. */
  function ParsedNames(data: string): Entries {
    NameSteps(NameScan(map[], "", ""), Fields(Split(data, NUL))).entries
  }

  method ParseNameStatusLogZ(data: string) returns (result: Entries)
    ensures result == ParsedNames(data)
  {
    var raw := Split(data, NUL);
    hide Split, TrimLeft, PutEntry, WithCommit;
    var currentHash, pendingStatus := "", "";
    result := map[];
    for i := 0 to |raw|
      invariant NameSteps(NameScan(result, currentHash, pendingStatus), Fields(raw[i..]))
             == NameSteps(NameScan(map[], "", ""), Fields(raw))
    {
      assert raw[i..][0] == raw[i] && raw[i..][1..] == raw[i + 1..];
      var field := TrimLeft(raw[i]);
      if field == "" { continue; }
      assert ([field] + Fields(raw[i + 1..]))[1..] == Fields(raw[i + 1..]);
      if "COMMIT:" <= field {
        currentHash := field[7..];
        result := WithCommit(result, currentHash);
        pendingStatus := "";
        continue;
      }
      if currentHash == "" { continue; }
      if pendingStatus == "" {
        pendingStatus := field;
      } else {
        result := PutEntry(result, currentHash, field, FileDiffEntry(pendingStatus, field, 0, 0, ""));
        pendingStatus := "";
      }
    }
  }

  // ----- Numstat

  predicate IsDigit(c: char) {
    '0' <= c <= '9'
  }

  predicate AllDigits(s: string) {
    s != "" && forall i :: 0 <= i < |s| ==> IsDigit(s[i])
  }

  function DigitsValue(s: string): nat
    requires forall i :: 0 <= i < |s| ==> IsDigit(s[i])
  {
    if s == "" then 0
    else
      var n := |s| - 1;
      assert IsDigit(s[n]);
      DigitsValue(s[..n]) * 10 + (s[n] as int - '0' as int)
  }

  const MAX_INT := 0x7fff_ffff_ffff_ffff

  /** `strconv.Atoi` with its error ignored: 0 for anything but an optionally signed decimal
      number, and the nearest 64-bit integer where that is out of range. */
  function Atoi(s: string): int {
    var signed := s != "" && (s[0] == '-' || s[0] == '+');
    var digits := if signed then s[1..] else s;
    if !AllDigits(digits) then 0
    else
      var n := DigitsValue(digits);
      if signed && s[0] == '-' then (if n > MAX_INT + 1 then -MAX_INT - 1 else 0 - n)
      else if n > MAX_INT then MAX_INT
      else n
  }

  /** `strings.SplitN(s, "\t", 3)`, where it yields three parts. */
  function SplitTabs(s: string): Option<(string, string, string)> {
    var i := FindTab(s);
    if i == |s| then None
    else
      var rest := s[i + 1..];
      var j := FindTab(rest);
      if j == |rest| then None else Some((s[..i], rest[..j], rest[j + 1..]))
  }

  function FindTab(s: string): (i: nat)
    ensures i <= |s| && '\t' !in s[..i] && (i < |s| ==> s[i] == '\t')
  {
    if s == "" then 0
    else if s[0] == '\t' then 0
    else
      assert s[..1 + FindTab(s[1..])] == [s[0]] + s[1..][..FindTab(s[1..])];
      1 + FindTab(s[1..])
  }

  function PutCounts(entries: Entries, hash: string, path: string, adds: int, dels: int): Entries {
    if Has(entries, hash, path) then PutEntry(entries, hash, path, entries[hash][path].(additions := adds, deletions := dels))
    else PutEntry(entries, hash, path, FileDiffEntry("M", path, adds, dels, ""))
  }

  datatype CountScan = CountScan(entries: Entries, hash: string)

  function CountStep(s: CountScan, field: string): CountScan {
    if "COMMIT:" <= field then CountScan(WithCommit(s.entries, field[7..]), field[7..])
    else if s.hash == "" then s
    else
      match SplitTabs(field)
      case None => s
      case Some((adds, dels, path)) => s.(entries := PutCounts(s.entries, s.hash, path, Atoi(adds), Atoi(dels)))
  }

  function CountSteps(s: CountScan, fields: seq<string>): CountScan
    decreases |fields|
  {
    if fields == [] then s else CountSteps(CountStep(s, fields[0]), fields[1..])
  }

  /** The table once a numstat text is merged in. */
  function MergedCounts(entries: Entries, data: string): Entries {
    CountSteps(CountScan(entries, ""), Fields(Split(data, NUL))).entries
  }

  /** The table the counts are merged into in place. */
  class CountedTable {
    var entries: Entries

    constructor (entries: Entries)
      ensures this.entries == entries
    {
      this.entries := entries;
    }

    method MergeNumstatLogZ(data: string)
      modifies this
      ensures entries == MergedCounts(old(entries), data)
    {
      var raw := Split(data, NUL);
      hide Split, TrimLeft, PutCounts, WithCommit, SplitTabs, Atoi;
      var currentHash := "";
      for i := 0 to |raw|
        invariant CountSteps(CountScan(entries, currentHash), Fields(raw[i..]))
               == CountSteps(CountScan(old(entries), ""), Fields(raw))
      {
        assert raw[i..][0] == raw[i] && raw[i..][1..] == raw[i + 1..];
        var field := TrimLeft(raw[i]);
        if field == "" { continue; }
        assert ([field] + Fields(raw[i + 1..]))[1..] == Fields(raw[i + 1..]);
        if "COMMIT:" <= field {
          currentHash := field[7..];
          entries := WithCommit(entries, currentHash);
          continue;
        }
        if currentHash == "" { continue; }
        var parts := SplitTabs(field);
        if parts.None? { continue; }
        var (adds, dels, path) := parts.value;
        entries := PutCounts(entries, currentHash, path, Atoi(adds), Atoi(dels));
      }
    }
  }

  // ----- Printed logs

  /** What a log prints about one file of one commit. */
  datatype Record<V> = Record(path: string, value: V)
  datatype Commit<V> = Commit(hash: string, records: seq<Record<V>>)

  /** A line count; binary files print "-". */
  datatype Count = Dash | Lines(n: nat)
  datatype Counts = Counts(adds: Count, dels: Count)

  function NameFields(records: seq<Record<string>>): seq<string> {
    if records == [] then [] else [records[0].value, records[0].path] + NameFields(records[1..])
  }

  function NameLogFields(log: seq<Commit<string>>): seq<string> {
    if log == [] then [] else ["COMMIT:" + log[0].hash] + (NameFields(log[0].records) + NameLogFields(log[1..]))
  }

  function Decimal(n: nat): string {
    if n < 10 then [('0' as int + n) as char] else Decimal(n / 10) + [('0' as int + n % 10) as char]
  }

  function CountText(c: Count): string {
    if c.Dash? then "-" else Decimal(c.n)
  }

  function CountField(r: Record<Counts>): string {
    CountText(r.value.adds) + "\t" + CountText(r.value.dels) + "\t" + r.path
  }

  function CountFields(records: seq<Record<Counts>>): seq<string> {
    if records == [] then [] else [CountField(records[0])] + CountFields(records[1..])
  }

  function CountLogFields(log: seq<Commit<Counts>>): seq<string> {
    if log == [] then [] else ["COMMIT:" + log[0].hash] + (CountFields(log[0].records) + CountLogFields(log[1..]))
  }

  /** A text that can stand in a field of its own: not empty, free of NUL and not starting with a line break. */
  predicate FieldText(t: string) {
    t != "" && NUL !in t && t[0] != '\n' && t[0] != '\r'
  }

  /** A status or path that is not mistaken for a commit line. */
  predicate PlainText(t: string) {
    FieldText(t) && !("COMMIT:" <= t)
  }

  predicate PlainRecord(r: Record<string>) {
    PlainText(r.value) && PlainText(r.path)
  }

  predicate IsHash(hash: string) {
    hash != "" && NUL !in hash
  }

  ghost predicate WellFormedNames(log: seq<Commit<string>>) {
    forall i :: 0 <= i < |log| ==>
      IsHash(log[i].hash) && forall j :: 0 <= j < |log[i].records| ==> PlainRecord(log[i].records[j])
  }

  predicate InRange(c: Count) {
    c.Lines? ==> c.n <= 0x7fff_ffff_ffff_ffff
  }

  /** The counts stand before the path, so any NUL-free path will do. */
  predicate CountableRecord(r: Record<Counts>) {
    InRange(r.value.adds) && InRange(r.value.dels) && NUL !in r.path
  }

  ghost predicate WellFormedCounts(log: seq<Commit<Counts>>) {
    forall i :: 0 <= i < |log| ==>
      IsHash(log[i].hash) && forall j :: 0 <= j < |log[i].records| ==> CountableRecord(log[i].records[j])
  }

  // ----- Printed texts

  /** What may stand between two fields: NULs and line breaks. */
  predicate IsGap(gap: string) {
    forall i :: 0 <= i < |gap| ==> gap[i] == NUL || gap[i] == '\n' || gap[i] == '\r'
  }

  predicate EndsField(gap: string) {
    gap != "" && gap[0] == NUL
  }

  /** Gaps around `n` fields: each field ends with a NUL, only the last may end with the data. */
  ghost predicate Separates(gaps: seq<string>, n: nat) {
    && |gaps| == n + 1
    && (forall i :: 0 <= i <= n ==> IsGap(gaps[i]))
    && (forall i :: 0 < i < n ==> EndsField(gaps[i]))
    && (n > 0 && gaps[n] != "" ==> EndsField(gaps[n]))
  }

  /** The fields as printed, with the given gaps before, between and after them. */
  function Printed(fields: seq<string>, gaps: seq<string>): string
    requires |gaps| == |fields| + 1
    decreases |fields|
  {
    if fields == [] then gaps[0] else gaps[0] + (fields[0] + Printed(fields[1..], gaps[1..]))
  }

  lemma {:induction false} FieldsOfGap(gap: string, rest: string)
    requires IsGap(gap)
    ensures Fields(Split(gap + rest, NUL)) == Fields(Split(rest, NUL))
    decreases |gap|
  {
    if gap == "" {
      assert gap + rest == rest;
    } else {
      var tail := gap[1..] + rest;
      assert (gap + rest)[0] == gap[0] && (gap + rest)[1..] == tail;
      FieldsOfGap(gap[1..], rest);
      FieldsAfterOne(gap[0], tail);
      assert [gap[0]] + tail == gap + rest;
    }
  }

  lemma FieldsAfterOne(c: char, tail: string)
    requires c == NUL || c == '\n' || c == '\r'
    ensures Fields(Split([c] + tail, NUL)) == Fields(Split(tail, NUL))
  {
    assert ([c] + tail)[1..] == tail;
    var parts := Split(tail, NUL);
    if c == NUL {
      assert Split([c] + tail, NUL) == [""] + parts;
      assert ([""] + parts)[1..] == parts;
    } else {
      var first := [c] + parts[0];
      assert Split([c] + tail, NUL) == [first] + parts[1..];
      assert first[1..] == parts[0];
      assert ([first] + parts[1..])[1..] == parts[1..];
    }
  }

  /** A field that ends with a NUL, or with the data, is seen as it is. */
  lemma FieldsOfText(t: string, rest: string)
    requires FieldText(t) && (rest == "" || EndsField(rest))
    ensures Fields(Split(t + rest, NUL)) == [t] + Fields(Split(rest, NUL))
  {
    assert TrimLeft(t) == t;
    if rest == "" {
      assert t + rest == t;
      SplitWithoutSeparator(t, NUL);
      assert Split("", NUL) == [""] && Fields([""]) == [];
      assert [t][1..] == [];
    } else {
      var tail := rest[1..];
      assert rest == [NUL] + tail;
      assert t + rest == t + [NUL] + tail;
      SplitAtFirst(t, tail, NUL);
      assert ([t] + Split(tail, NUL))[1..] == Split(tail, NUL);
      FieldsAfterOne(NUL, tail);
    }
  }

  /** The parsers see exactly the printed fields, whatever the gaps. */
  lemma {:induction false} FieldsOfPrinted(fields: seq<string>, gaps: seq<string>)
    requires Separates(gaps, |fields|) && forall i :: 0 <= i < |fields| ==> FieldText(fields[i])
    ensures Fields(Split(Printed(fields, gaps), NUL)) == fields
    decreases |fields|
  {
    hide Fields, Split, FieldText, IsGap;
    if fields == [] {
      FieldsOfGap(gaps[0], "");
      assert gaps[0] + "" == gaps[0];
      NoFields();
    } else {
      var rest := Printed(fields[1..], gaps[1..]);
      assert rest == "" || EndsField(rest);
      FieldsOfGap(gaps[0], fields[0] + rest);
      FieldsOfText(fields[0], rest);
      FieldsOfPrinted(fields[1..], gaps[1..]);
    }
  }

  lemma NoFields()
    ensures Fields(Split("", NUL)) == []
  {
    assert Fields([""]) == Fields([""][1..]);
  }

  lemma {:induction false} NameFieldsAreTexts(records: seq<Record<string>>)
    requires forall j :: 0 <= j < |records| ==> PlainRecord(records[j])
    ensures forall i :: 0 <= i < |NameFields(records)| ==> FieldText(NameFields(records)[i])
  {
    hide FieldText;
    if records != [] {
      assert PlainRecord(records[0]);
      NameFieldsAreTexts(records[1..]);
    }
  }

  lemma HashLineIsText(hash: string)
    requires IsHash(hash)
    ensures FieldText("COMMIT:" + hash)
  {
  }

  lemma {:induction false} NameLogFieldsAreTexts(log: seq<Commit<string>>)
    requires WellFormedNames(log)
    ensures forall i :: 0 <= i < |NameLogFields(log)| ==> FieldText(NameLogFields(log)[i])
  {
    hide FieldText, PlainRecord;
    if log != [] {
      HashLineIsText(log[0].hash);
      NameFieldsAreTexts(log[0].records);
      NameLogFieldsAreTexts(log[1..]);
    }
  }

  // ----- The value a log gives to one file of one commit

  /** The value of the last record for the path, or `v` without one. */
  function AfterRecords<V>(v: Option<V>, records: seq<Record<V>>, path: string): Option<V>
    decreases |records|
  {
    if records == [] then v
    else AfterRecords(if records[0].path == path then Some(records[0].value) else v, records[1..], path)
  }

  function AfterLog<V>(v: Option<V>, log: seq<Commit<V>>, hash: string, path: string): Option<V>
    decreases |log|
  {
    if log == [] then v
    else AfterLog(if log[0].hash == hash then AfterRecords(v, log[0].records, path) else v, log[1..], hash, path)
  }

  ghost predicate RecordAt<V>(log: seq<Commit<V>>, i: int, j: int, hash: string, path: string) {
    0 <= i < |log| && 0 <= j < |log[i].records| && log[i].hash == hash && log[i].records[j].path == path
  }

  lemma {:induction false} AfterOtherRecords<V>(v: Option<V>, records: seq<Record<V>>, path: string)
    requires forall j :: 0 <= j < |records| ==> records[j].path != path
    ensures AfterRecords(v, records, path) == v
    decreases |records|
  {
    if records != [] {
      AfterOtherRecords(v, records[1..], path);
    }
  }

  lemma {:induction false} AfterLastRecord<V>(v: Option<V>, records: seq<Record<V>>, j: nat, path: string)
    requires j < |records| && records[j].path == path
    requires forall k :: j < k < |records| ==> records[k].path != path
    ensures AfterRecords(v, records, path) == Some(records[j].value)
    decreases |records|
  {
    if j == 0 {
      AfterOtherRecords(Some(records[0].value), records[1..], path);
    } else {
      AfterLastRecord(if records[0].path == path then Some(records[0].value) else v, records[1..], j - 1, path);
    }
  }

  /** A file no record names keeps its value. */
  lemma {:induction false} AfterLogWithout<V>(v: Option<V>, log: seq<Commit<V>>, hash: string, path: string)
    requires forall i, j :: !RecordAt(log, i, j, hash, path)
    ensures AfterLog(v, log, hash, path) == v
    decreases |log|
  {
    if log != [] {
      if log[0].hash == hash {
        forall j | 0 <= j < |log[0].records|
          ensures log[0].records[j].path != path
        {
          assert !RecordAt(log, 0, j, hash, path);
        }
        AfterOtherRecords(v, log[0].records, path);
      }
      forall i, j
        ensures !RecordAt(log[1..], i, j, hash, path)
      {
        assert !RecordAt(log, i + 1, j, hash, path);
      }
      AfterLogWithout(v, log[1..], hash, path);
    }
  }

  /** Otherwise the last record naming the file decides. */
  lemma {:induction false} AfterLogLast<V>(v: Option<V>, log: seq<Commit<V>>, i: nat, j: nat, hash: string, path: string)
    requires RecordAt(log, i, j, hash, path)
    requires forall i', j' :: RecordAt(log, i', j', hash, path) ==> i' < i || (i' == i && j' <= j)
    ensures AfterLog(v, log, hash, path) == Some(log[i].records[j].value)
    decreases |log|
  {
    forall i', j' | RecordAt(log[1..], i', j', hash, path)
      ensures i' < i - 1 || (i' == i - 1 && j' <= j)
    {
      assert RecordAt(log, i' + 1, j', hash, path);
    }
    if i == 0 {
      forall k | j < k < |log[0].records|
        ensures log[0].records[k].path != path
      {
        assert !RecordAt(log, 0, k, hash, path);
      }
      AfterLastRecord(v, log[0].records, j, path);
      AfterLogWithout(Some(log[0].records[j].value), log[1..], hash, path);
    } else {
      assert RecordAt(log[1..], i - 1, j, hash, path);
      AfterLogLast(if log[0].hash == hash then AfterRecords(v, log[0].records, path) else v, log[1..], i - 1, j, hash, path);
    }
  }

  // ----- Numbers and tabs

  lemma {:induction false} DecimalRoundTrip(n: nat)
    ensures AllDigits(Decimal(n)) && DigitsValue(Decimal(n)) == n
  {
    var s := Decimal(n);
    if n >= 10 {
      DecimalRoundTrip(n / 10);
      assert s[..|s| - 1] == Decimal(n / 10);
    } else {
      assert s[..0] == "";
    }
  }

  function CountValue(c: Count): int {
    if c.Dash? then 0 else c.n
  }

  lemma AtoiOfCount(c: Count)
    requires InRange(c)
    ensures Atoi(CountText(c)) == CountValue(c)
    ensures '\t' !in CountText(c) && CountText(c) != "" && (CountText(c)[0] == '-' || IsDigit(CountText(c)[0]))
  {
    if c.Lines? {
      DecimalRoundTrip(c.n);
      hide Decimal, DigitsValue;
      assert IsDigit(Decimal(c.n)[0]);
    }
  }

  lemma {:induction false} FindTabAfter(a: string, rest: string)
    requires '\t' !in a
    ensures FindTab(a + "\t" + rest) == |a|
  {
    var s := a + "\t" + rest;
    if a != "" {
      assert s[1..] == a[1..] + "\t" + rest;
      FindTabAfter(a[1..], rest);
    }
  }

  lemma SplitTabsOfField(a: string, b: string, path: string)
    requires '\t' !in a && '\t' !in b
    ensures SplitTabs(a + "\t" + b + "\t" + path) == Some((a, b, path))
  {
    hide FindTab;
    var rest := b + "\t" + path;
    var s := a + "\t" + rest;
    assert a + "\t" + b + "\t" + path == s;
    FindTabAfter(a, rest);
    FindTabAfter(b, path);
    assert s[|a| + 1..] == rest && s[..|a|] == a;
    assert rest[|b| + 1..] == path && rest[..|b|] == b;
  }

  // ----- Reading a printed name-status log

  function PutNames(entries: Entries, hash: string, records: seq<Record<string>>): Entries
    decreases |records|
  {
    if records == [] then entries
    else PutNames(PutEntry(entries, hash, records[0].path, FileDiffEntry(records[0].value, records[0].path, 0, 0, "")), hash, records[1..])
  }

  function PutNameLog(entries: Entries, log: seq<Commit<string>>): Entries
    decreases |log|
  {
    if log == [] then entries else PutNameLog(PutNames(WithCommit(entries, log[0].hash), log[0].hash, log[0].records), log[1..])
  }

  lemma {:induction false} NameStepsAppend(s: NameScan, a: seq<string>, b: seq<string>)
    ensures NameSteps(s, a + b) == NameSteps(NameSteps(s, a), b)
    decreases |a|
  {
    hide NameStep;
    if a == [] {
      assert a + b == b;
    } else {
      assert (a + b)[0] == a[0] && (a + b)[1..] == a[1..] + b;
      NameStepsAppend(NameStep(s, a[0]), a[1..], b);
    }
  }

  lemma {:induction false} NameRecordsRead(entries: Entries, hash: string, records: seq<Record<string>>)
    requires hash != "" && forall j :: 0 <= j < |records| ==> PlainRecord(records[j])
    ensures NameSteps(NameScan(entries, hash, ""), NameFields(records)) == NameScan(PutNames(entries, hash, records), hash, "")
    decreases |records|
  {
    hide PutEntry;
    if records != [] {
      var r := records[0];
      assert PlainRecord(r);
      var fields := NameFields(records);
      assert fields[0] == r.value && fields[1..][0] == r.path && fields[1..][1..] == NameFields(records[1..]);
      var s := NameScan(entries, hash, "");
      assert NameStep(NameStep(s, r.value), r.path).entries
          == PutEntry(entries, hash, r.path, FileDiffEntry(r.value, r.path, 0, 0, ""));
      NameRecordsRead(PutEntry(entries, hash, r.path, FileDiffEntry(r.value, r.path, 0, 0, "")), hash, records[1..]);
    }
  }

  lemma {:induction false} NameLogRead(s: NameScan, log: seq<Commit<string>>)
    requires WellFormedNames(log)
    ensures NameSteps(s, NameLogFields(log)).entries == PutNameLog(s.entries, log)
    decreases |log|
  {
    if log != [] {
      var c := log[0];
      var fields, rest := NameFields(c.records), NameLogFields(log[1..]);
      var all := NameLogFields(log);
      assert all[0] == "COMMIT:" + c.hash && all[1..] == fields + rest;
      var begun := NameScan(WithCommit(s.entries, c.hash), c.hash, "");
      assert NameStep(s, all[0]) == begun by {
        assert ("COMMIT:" + c.hash)[7..] == c.hash;
      }
      hide NameStep, PlainRecord, WithCommit;
      NameStepsAppend(begun, fields, rest);
      NameRecordsRead(begun.entries, c.hash, c.records);
      NameLogRead(NameScan(PutNames(begun.entries, c.hash, c.records), c.hash, ""), log[1..]);
    }
  }

  // ----- What the table holds for one file of one commit

  function EntryAt(entries: Entries, hash: string, path: string): Option<FileDiffEntry> {
    if Has(entries, hash, path) then Some(entries[hash][path]) else None
  }

  function NameEntry(status: Option<string>, path: string): Option<FileDiffEntry> {
    if status.Some? then Some(FileDiffEntry(status.value, path, 0, 0, "")) else None
  }

  lemma {:induction false} PutNamesEffect(entries: Entries, hash: string, records: seq<Record<string>>, v: Option<string>, h: string, p: string)
    requires EntryAt(entries, h, p) == NameEntry(v, p)
    ensures EntryAt(PutNames(entries, hash, records), h, p) == NameEntry(if h == hash then AfterRecords(v, records, p) else v, p)
    decreases |records|
  {
    if records != [] {
      var r := records[0];
      var next := PutEntry(entries, hash, r.path, FileDiffEntry(r.value, r.path, 0, 0, ""));
      PutNamesEffect(next, hash, records[1..], if h == hash && r.path == p then Some(r.value) else v, h, p);
    }
  }

  lemma {:induction false} PutNameLogEffect(entries: Entries, log: seq<Commit<string>>, v: Option<string>, h: string, p: string)
    requires EntryAt(entries, h, p) == NameEntry(v, p)
    ensures EntryAt(PutNameLog(entries, log), h, p) == NameEntry(AfterLog(v, log, h, p), p)
    decreases |log|
  {
    if log != [] {
      var added := WithCommit(entries, log[0].hash);
      PutNamesEffect(added, log[0].hash, log[0].records, v, h, p);
      hide PutNames;
      PutNameLogEffect(PutNames(added, log[0].hash, log[0].records), log[1..],
                       if log[0].hash == h then AfterRecords(v, log[0].records, p) else v, h, p);
    }
  }

  /** Parsing git's name-status text gives every file of every commit exactly its last printed
      status, and holds nothing else. */
  lemma ParseOfPrintedNames(log: seq<Commit<string>>, gaps: seq<string>, h: string, p: string)
    requires WellFormedNames(log) && Separates(gaps, |NameLogFields(log)|)
    ensures EntryAt(ParsedNames(Printed(NameLogFields(log), gaps)), h, p) == NameEntry(AfterLog(None, log, h, p), p)
  {
    hide NameSteps, NameLogFields, Fields, Split, PutNameLog, AfterLog, Printed, Separates, WellFormedNames;
    NameLogFieldsAreTexts(log);
    FieldsOfPrinted(NameLogFields(log), gaps);
    NameLogRead(NameScan(map[], "", ""), log);
    PutNameLogEffect(map[], log, None, h, p);
  }

  // ----- Merging a printed numstat log

  function PutCountRecords(entries: Entries, hash: string, records: seq<Record<Counts>>): Entries
    decreases |records|
  {
    if records == [] then entries
    else
      var r := records[0];
      PutCountRecords(PutCounts(entries, hash, r.path, CountValue(r.value.adds), CountValue(r.value.dels)), hash, records[1..])
  }

  function PutCountLog(entries: Entries, log: seq<Commit<Counts>>): Entries
    decreases |log|
  {
    if log == [] then entries
    else PutCountLog(PutCountRecords(WithCommit(entries, log[0].hash), log[0].hash, log[0].records), log[1..])
  }

  lemma {:induction false} CountStepsAppend(s: CountScan, a: seq<string>, b: seq<string>)
    ensures CountSteps(s, a + b) == CountSteps(CountSteps(s, a), b)
    decreases |a|
  {
    hide CountStep;
    if a == [] {
      assert a + b == b;
    } else {
      assert (a + b)[0] == a[0] && (a + b)[1..] == a[1..] + b;
      CountStepsAppend(CountStep(s, a[0]), a[1..], b);
    }
  }

  lemma CountFieldRead(s: CountScan, r: Record<Counts>)
    requires s.hash != "" && CountableRecord(r)
    ensures CountStep(s, CountField(r)) ==
            s.(entries := PutCounts(s.entries, s.hash, r.path, CountValue(r.value.adds), CountValue(r.value.dels)))
  {
    hide Atoi, CountText, SplitTabs, PutCounts;
    var adds, dels := CountText(r.value.adds), CountText(r.value.dels);
    AtoiOfCount(r.value.adds);
    AtoiOfCount(r.value.dels);
    SplitTabsOfField(adds, dels, r.path);
    assert CountField(r)[0] == adds[0];
  }

  lemma {:induction false} CountRecordsRead(s: CountScan, records: seq<Record<Counts>>)
    requires s.hash != "" && forall j :: 0 <= j < |records| ==> CountableRecord(records[j])
    ensures CountSteps(s, CountFields(records)) == s.(entries := PutCountRecords(s.entries, s.hash, records))
    decreases |records|
  {
    hide CountStep, CountField, PutCounts, CountableRecord;
    if records != [] {
      var r := records[0];
      CountFieldRead(s, r);
      var next := s.(entries := PutCounts(s.entries, s.hash, r.path, CountValue(r.value.adds), CountValue(r.value.dels)));
      CountRecordsRead(next, records[1..]);
    }
  }

  lemma {:induction false} CountLogRead(s: CountScan, log: seq<Commit<Counts>>)
    requires WellFormedCounts(log)
    ensures CountSteps(s, CountLogFields(log)).entries == PutCountLog(s.entries, log)
    decreases |log|
  {
    if log != [] {
      var c := log[0];
      var fields, rest := CountFields(c.records), CountLogFields(log[1..]);
      var all := CountLogFields(log);
      assert all[0] == "COMMIT:" + c.hash && all[1..] == fields + rest;
      var begun := CountScan(WithCommit(s.entries, c.hash), c.hash);
      assert CountStep(s, all[0]) == begun by {
        assert ("COMMIT:" + c.hash)[7..] == c.hash;
      }
      hide CountStep, CountableRecord, WithCommit;
      CountStepsAppend(begun, fields, rest);
      CountRecordsRead(begun, c.records);
      CountLogRead(begun.(entries := PutCountRecords(begun.entries, c.hash, c.records)), log[1..]);
    }
  }

  /** An entry with counts merged in: the status and patch stay, and a file known only to the
      numstat log counts as modified. */
  function CountedEntry(e: Option<FileDiffEntry>, counts: Option<Counts>, path: string): Option<FileDiffEntry> {
    match counts
    case None => e
    case Some(Counts(adds, dels)) =>
      if e.Some? then Some(e.value.(additions := CountValue(adds), deletions := CountValue(dels)))
      else Some(FileDiffEntry("M", path, CountValue(adds), CountValue(dels), ""))
  }

  lemma {:induction false} PutCountRecordsEffect(entries: Entries, hash: string, records: seq<Record<Counts>>,
                                                 e: Option<FileDiffEntry>, v: Option<Counts>, h: string, p: string)
    requires EntryAt(entries, h, p) == CountedEntry(e, v, p)
    ensures EntryAt(PutCountRecords(entries, hash, records), h, p)
         == CountedEntry(e, if h == hash then AfterRecords(v, records, p) else v, p)
    decreases |records|
  {
    if records != [] {
      var r := records[0];
      var next := PutCounts(entries, hash, r.path, CountValue(r.value.adds), CountValue(r.value.dels));
      PutCountRecordsEffect(next, hash, records[1..], e, if h == hash && r.path == p then Some(r.value) else v, h, p);
    }
  }

  lemma {:induction false} PutCountLogEffect(entries: Entries, log: seq<Commit<Counts>>,
                                             e: Option<FileDiffEntry>, v: Option<Counts>, h: string, p: string)
    requires EntryAt(entries, h, p) == CountedEntry(e, v, p)
    ensures EntryAt(PutCountLog(entries, log), h, p) == CountedEntry(e, AfterLog(v, log, h, p), p)
    decreases |log|
  {
    if log != [] {
      var added := WithCommit(entries, log[0].hash);
      PutCountRecordsEffect(added, log[0].hash, log[0].records, e, v, h, p);
      hide PutCountRecords, CountedEntry;
      PutCountLogEffect(PutCountRecords(added, log[0].hash, log[0].records), log[1..], e,
                        if log[0].hash == h then AfterRecords(v, log[0].records, p) else v, h, p);
    }
  }

  lemma CountFieldIsText(r: Record<Counts>)
    requires CountableRecord(r)
    ensures FieldText(CountField(r))
  {
    CountTextIsText(r.value.adds);
    CountTextIsText(r.value.dels);
    hide CountText;
    assert CountField(r)[0] == CountText(r.value.adds)[0];
  }

  lemma CountTextIsText(c: Count)
    ensures FieldText(CountText(c))
  {
    if c.Lines? {
      DecimalRoundTrip(c.n);
      hide Decimal, DigitsValue;
      assert IsDigit(Decimal(c.n)[0]);
    }
  }

  lemma {:induction false} CountFieldsAreTexts(records: seq<Record<Counts>>)
    requires forall j :: 0 <= j < |records| ==> CountableRecord(records[j])
    ensures forall i :: 0 <= i < |CountFields(records)| ==> FieldText(CountFields(records)[i])
  {
    hide FieldText, CountField, CountableRecord;
    if records != [] {
      CountFieldIsText(records[0]);
      CountFieldsAreTexts(records[1..]);
    }
  }

  lemma {:induction false} CountLogFieldsAreTexts(log: seq<Commit<Counts>>)
    requires WellFormedCounts(log)
    ensures forall i :: 0 <= i < |CountLogFields(log)| ==> FieldText(CountLogFields(log)[i])
  {
    hide FieldText, CountableRecord;
    if log != [] {
      HashLineIsText(log[0].hash);
      CountFieldsAreTexts(log[0].records);
      CountLogFieldsAreTexts(log[1..]);
    }
  }

  /** Merging git's numstat text sets exactly the last printed counts of each file it names: no
      status changes, no entry is dropped, and nothing is stored under another key. */
  lemma MergeOfPrintedCounts(entries: Entries, log: seq<Commit<Counts>>, gaps: seq<string>, h: string, p: string)
    requires WellFormedCounts(log) && Separates(gaps, |CountLogFields(log)|)
    ensures EntryAt(MergedCounts(entries, Printed(CountLogFields(log), gaps)), h, p)
         == CountedEntry(EntryAt(entries, h, p), AfterLog(None, log, h, p), p)
  {
    hide CountSteps, CountLogFields, Fields, Split, PutCountLog, AfterLog, Printed, Separates, WellFormedCounts;
    CountLogFieldsAreTexts(log);
    FieldsOfPrinted(CountLogFields(log), gaps);
    CountLogRead(CountScan(entries, ""), log);
    PutCountLogEffect(entries, log, EntryAt(entries, h, p), None, h, p);
  }

  /** Both logs together: for a file whose last records are (status) and (adds, dels), the table
      holds exactly that status and those counts under exactly that commit and path. */
  lemma JoinOfPrintedLogs(names: seq<Commit<string>>, counts: seq<Commit<Counts>>, nameGaps: seq<string>, countGaps: seq<string>,
                          h: string, p: string, i: nat, j: nat, k: nat, l: nat)
    requires WellFormedNames(names) && Separates(nameGaps, |NameLogFields(names)|)
    requires WellFormedCounts(counts) && Separates(countGaps, |CountLogFields(counts)|)
    requires RecordAt(names, i, j, h, p) && forall i', j' :: RecordAt(names, i', j', h, p) ==> i' < i || (i' == i && j' <= j)
    requires RecordAt(counts, k, l, h, p) && forall k', l' :: RecordAt(counts, k', l', h, p) ==> k' < k || (k' == k && l' <= l)
    ensures var nameText, countText := Printed(NameLogFields(names), nameGaps), Printed(CountLogFields(counts), countGaps);
            EntryAt(MergedCounts(ParsedNames(nameText), countText), h, p)
            == Some(FileDiffEntry(names[i].records[j].value, p,
                                  CountValue(counts[k].records[l].value.adds),
                                  CountValue(counts[k].records[l].value.dels), ""))
  {
    hide ParsedNames, MergedCounts, Printed, NameLogFields, CountLogFields, AfterLog;
    ParseOfPrintedNames(names, nameGaps, h, p);
    MergeOfPrintedCounts(ParsedNames(Printed(NameLogFields(names), nameGaps)), counts, countGaps, h, p);
    AfterLogLast(None, names, i, j, h, p);
    AfterLogLast(None, counts, k, l, h, p);
  }

  // ----- Other fields

  /** What comes before the first commit, and a record without two tabs, is ignored. */
  lemma IgnoredCounts(s: CountScan, field: string)
    requires !("COMMIT:" <= field)
    requires s.hash == "" || forall i, j :: 0 <= i < j < |field| ==> field[i] != '\t' || field[j] != '\t'
    ensures CountStep(s, field) == s
  {
    if s.hash != "" && SplitTabs(field).Some? {
      var i, j := TwoTabs(field);
    }
  }

  lemma TwoTabs(field: string) returns (i: nat, j: nat)
    requires SplitTabs(field).Some?
    ensures i < j < |field| && field[i] == '\t' && field[j] == '\t'
  {
    i := FindTab(field);
    j := i + 1 + FindTab(field[i + 1..]);
  }

  lemma IgnoredNames(s: NameScan, field: string)
    requires !("COMMIT:" <= field) && s.hash == ""
    ensures NameStep(s, field) == s
  {
  }

  /** A commit line opens its commit, which keeps what it already has, and drops a status that no path followed. */
  lemma CommitLineRead(hash: string, s: NameScan, t: CountScan, h: string, p: string)
    ensures var after := NameStep(s, "COMMIT:" + hash);
            && after.hash == hash && after.pending == "" && hash in after.entries
            && EntryAt(after.entries, h, p) == EntryAt(s.entries, h, p)
    ensures var after := CountStep(t, "COMMIT:" + hash);
            after.hash == hash && hash in after.entries && EntryAt(after.entries, h, p) == EntryAt(t.entries, h, p)
  {
    assert "COMMIT:" <= "COMMIT:" + hash && ("COMMIT:" + hash)[7..] == hash;
  }

  /** A count beyond the 64-bit range is taken for the largest integer. */
  lemma AtoiOutOfRange(n: nat)
    requires n > 0x7fff_ffff_ffff_ffff
    ensures Atoi(Decimal(n)) == 0x7fff_ffff_ffff_ffff
  {
    DecimalRoundTrip(n);
    hide Decimal, DigitsValue;
    assert IsDigit(Decimal(n)[0]);
  }

  /** A count that is no number is taken for zero. */
  lemma AtoiOfOther(s: string)
    requires s == "" || exists i :: 0 <= i < |s| && !('0' <= s[i] <= '9') && !(i == 0 && (s[0] == '-' || s[0] == '+'))
    ensures Atoi(s) == 0
  {
    if s != "" {
      var i :| 0 <= i < |s| && !('0' <= s[i] <= '9') && !(i == 0 && (s[0] == '-' || s[0] == '+'));
      if s[0] == '-' || s[0] == '+' { assert s[1..][i - 1] == s[i]; }
    }
  }
}
