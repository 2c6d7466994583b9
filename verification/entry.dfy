/** One phonebook entry and the `|`-separated line it is stored as
    (main.py, `load_data` and `save_data`). */
module Entries {
  import opened Results
  import opened Text

  /** A record of six text fields, in the order the file stores them:
      surname, name, fathername, organization, job phone, phone. */
  datatype Entry = Entry(
    surname: string,
    name: string,
    fatherName: string,
    organization: string,
    jobPhone: string,
    phone: string)

  /** The field separator of a stored line. */
  const Delimiter: char := '|'

  /** The fields in stored order, as `entry.values()` yields them. */
  function Values(e: Entry): seq<string> {
    [e.surname, e.name, e.fatherName, e.organization, e.jobPhone, e.phone]
  }

  /** The stored line of an entry: `'|'.join(entry.values()) + '\n'`. */
  function Serialize(e: Entry): string {
    Join(Values(e), Delimiter) + "\n"
  }

  /** The `IndexError` a short line raises: `entry[index]` does not exist. */
  datatype MissingField = MissingField(index: nat)

  /** Parsing a line the way `load_data` does: strip the whole line, split it
      at `|`, and take the first six pieces as the fields in stored order. A line
      with fewer than six pieces raises at the first missing one; pieces after
      the sixth are ignored. */
  function ParseLine(line: string): (r: Result<Entry, MissingField>)
    ensures r.Ok? <==> Count(Strip(line), Delimiter) >= 5
    ensures r.Err? ==> r.error.index == Count(Strip(line), Delimiter) + 1 && 1 <= r.error.index < 6
    ensures r.Ok? ==> NoDelimiter(r.value)
    ensures r.Ok? ==> Join(Values(r.value), Delimiter) <= Strip(line)
    ensures r.Ok? && Count(Strip(line), Delimiter) == 5 ==> Join(Values(r.value), Delimiter) == Strip(line)
    ensures r.Ok? && Count(Strip(line), Delimiter) > 5 ==> Join(Values(r.value), Delimiter) + [Delimiter] <= Strip(line)
  {
    var s := Strip(line);
    var parts := Split(s, Delimiter);
    SplitCount(s, Delimiter);
    if |parts| < 6 then
      Err(MissingField(|parts|))
    else
      FirstSixPieces(s);
      Ok(FromParts(parts))
  }

  /** The first six pieces of a split rejoin to a prefix of the text, to all
      of it when there are no more pieces, and otherwise to a prefix followed
      by the separator that starts the ignored rest. */
  lemma FirstSixPieces(s: string)
    requires |Split(s, Delimiter)| >= 6
    ensures Join(Split(s, Delimiter)[..6], Delimiter) <= s
    ensures |Split(s, Delimiter)| == 6 ==> Join(Split(s, Delimiter)[..6], Delimiter) == s
    ensures |Split(s, Delimiter)| > 6 ==> Join(Split(s, Delimiter)[..6], Delimiter) + [Delimiter] <= s
  {
    var parts := Split(s, Delimiter);
    JoinPrefix(parts, Delimiter, 6);
    if |parts| == 6 {
      assert parts[..6] == parts;
    }
  }

  /** The entry whose fields are the first six pieces of a split line. */
  function FromParts(parts: seq<string>): (e: Entry)
    requires |parts| >= 6
    requires forall i :: 0 <= i < |parts| ==> Delimiter !in parts[i]
    ensures Values(e) == parts[..6]
    ensures NoDelimiter(e)
  {
    Entry(parts[0], parts[1], parts[2], parts[3], parts[4], parts[5])
  }

  /** No field holds the separator. */
  predicate NoDelimiter(e: Entry) {
    forall i :: 0 <= i < |Values(e)| ==> Delimiter !in Values(e)[i]
  }

  /** No field holds a line break, so the entry's line is one line of the file.
      Reading in text mode ends a line at `'\r'` as well as at `'\n'`, so both
      are excluded. */
  predicate NoLineBreak(e: Entry) {
    forall i :: 0 <= i < |Values(e)| ==> '\n' !in Values(e)[i] && '\r' !in Values(e)[i]
  }

  /** The line neither starts nor ends with whitespace that `strip()` would eat:
      the surname does not start with whitespace and the phone does not end with it. */
  predicate Unpadded(e: Entry) {
    && (e.surname == [] || !IsSpace(e.surname[0]))
    && (e.phone == [] || !IsSpace(e.phone[|e.phone| - 1]))
  }

  /** An entry the file stores faithfully. */
  predicate Storable(e: Entry) {
    NoDelimiter(e) && NoLineBreak(e) && Unpadded(e)
  }

  /** The joined fields, spelled out. */
  lemma JoinValues(e: Entry)
    ensures Join(Values(e), Delimiter)
         == e.surname + "|" + e.name + "|" + e.fatherName + "|" + e.organization + "|" + e.jobPhone + "|" + e.phone
  {
    var v := Values(e);
    var t5 := e.phone;
    var t4 := e.jobPhone + "|" + t5;
    var t3 := e.organization + "|" + t4;
    var t2 := e.fatherName + "|" + t3;
    var t1 := e.name + "|" + t2;
    assert Join(v[5..], Delimiter) == t5;
    assert Join(v[4..], Delimiter) == t4 by { assert v[4..][1..] == v[5..]; }
    assert Join(v[3..], Delimiter) == t3 by { assert v[3..][1..] == v[4..]; }
    assert Join(v[2..], Delimiter) == t2 by { assert v[2..][1..] == v[3..]; }
    assert Join(v[1..], Delimiter) == t1 by { assert v[1..][1..] == v[2..]; }
    assert Join(v, Delimiter) == e.surname + "|" + t1;
  }

  /** The first and last characters of the joined fields. */
  lemma JoinEnds(e: Entry)
    ensures var body := Join(Values(e), Delimiter);
      && body != []
      && body[0] == (if e.surname == [] then Delimiter else e.surname[0])
      && body[|body| - 1] == (if e.phone == [] then Delimiter else e.phone[|e.phone| - 1])
  {
    JoinValues(e);
    var body := Join(Values(e), Delimiter);
    var head := e.surname + "|";
    var tail := "|" + e.phone;
    assert body == head + (e.name + "|" + e.fatherName + "|" + e.organization + "|" + e.jobPhone) + tail;
    assert body[0] == head[0];
    assert body[|body| - 1] == tail[|tail| - 1];
  }

  /** Serialized entries with unpadded ends parse back to themselves. */
  lemma ParseSerializeUnpadded(e: Entry)
    requires NoDelimiter(e) && Unpadded(e)
    ensures ParseLine(Serialize(e)) == Ok(e)
  {
    var v := Values(e);
    var line := Serialize(e);
    var body := Join(v, Delimiter);
    assert Strip(line) == body by {
      JoinEnds(e);
      StripTerminated(body);
    }
    assert Split(Strip(line), Delimiter) == v by {
      SplitJoin(v, Delimiter);
    }
    ParseLineSplit(line);
    assert FromParts(v) == e;
  }

  /** A line whose stripped form splits into six or more pieces parses to the
      entry made of the first six. */
  lemma ParseLineSplit(line: string)
    ensures |Split(Strip(line), Delimiter)| >= 6 ==> ParseLine(line) == Ok(FromParts(Split(Strip(line), Delimiter)))
  {
  }

  /** A serialized entry that parses back to itself has unpadded ends:
      the line then has exactly five separators, so the stripped line is the
      whole joined body, whose ends `strip()` has left alone. */
  lemma ParseSerializePadded(e: Entry)
    requires NoDelimiter(e) && ParseLine(Serialize(e)) == Ok(e)
    ensures Unpadded(e)
  {
    SerializedCount(e);
    ParsedLineIsStripped(Serialize(e), e);
    UnpaddedIfStripped(e);
  }

  /** A line written for an entry without separators in its fields holds exactly five. */
  lemma SerializedCount(e: Entry)
    requires NoDelimiter(e)
    ensures Count(Serialize(e), Delimiter) == 5
  {
    JoinCount(Values(e), Delimiter);
    CountAppend(Join(Values(e), Delimiter), "\n", Delimiter);
  }

  /** If stripping the written line leaves the joined fields, the entry is unpadded. */
  lemma UnpaddedIfStripped(e: Entry)
    requires Join(Values(e), Delimiter) == Strip(Serialize(e))
    ensures Unpadded(e)
  {
    JoinEnds(e);
  }

  /** A line with at most five separators that parses is, stripped, exactly
      its fields joined back together. */
  lemma ParsedLineIsStripped(line: string, e: Entry)
    requires ParseLine(line) == Ok(e) && Count(line, Delimiter) <= 5
    ensures Join(Values(e), Delimiter) == Strip(line)
  {
    StripCount(line, Delimiter);
  }

  /** Round trip of one line: parsing the serialized entry gives the entry back
      exactly when `strip()` has nothing to eat at either end of the line. */
  lemma ParseSerialize(e: Entry)
    requires NoDelimiter(e)
    ensures ParseLine(Serialize(e)) == Ok(e) <==> Unpadded(e)
  {
    if Unpadded(e) {
      ParseSerializeUnpadded(e);
    }
    if ParseLine(Serialize(e)) == Ok(e) {
      ParseSerializePadded(e);
    }
  }
}
