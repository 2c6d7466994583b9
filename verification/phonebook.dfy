/** The phonebook store of main.py with console and file access taken out:
    loading from and saving to the file's text, appending an entry, and
    overwriting one entry after the user confirms. */
module Phonebook {
  import opened Results
  import opened Text
  import opened Entries
  import Paging

  /** A line of the file that is too short: `entry[index]` raised `IndexError`
      on line `line` (0-based). */
  datatype LoadError = MalformedLine(line: nat, index: nat)

  /** Apply `parse` to the items one by one, in order; the first failure aborts
      the whole run and reports its position. */
  function ParseEach<T, E>(items: seq<string>, parse: string -> Result<T, E>): (r: Result<seq<T>, (nat, E)>)
    ensures r.Ok? ==> |r.value| == |items|
    ensures r.Ok? ==> forall i :: 0 <= i < |items| ==> parse(items[i]) == Ok(r.value[i])
    ensures r.Err? ==>
              && r.error.0 < |items|
              && parse(items[r.error.0]) == Err(r.error.1)
              && forall i :: 0 <= i < r.error.0 ==> parse(items[i]).Ok?
  {
    if items == [] then Ok([])
    else
      var first := parse(items[0]);
      if first.Err? then Err((0, first.error))
      else
        var rest := ParseEach(items[1..], parse);
        assert forall i :: 1 <= i < |items| ==> items[i] == items[1..][i - 1];
        if rest.Err? then Err((rest.error.0 + 1, rest.error.1))
        else Ok([first.value] + rest.value)
  }

  /** A run in which every item parses yields exactly the parsed values. */
  lemma {:induction false} ParseEachAll<T, E>(items: seq<string>, parse: string -> Result<T, E>, values: seq<T>)
    requires |values| == |items|
    requires forall i :: 0 <= i < |items| ==> parse(items[i]) == Ok(values[i])
    ensures ParseEach(items, parse) == Ok(values)
    decreases |items|
  {
    if items != [] {
      assert forall i :: 0 <= i < |items| - 1 ==> items[1..][i] == items[i + 1] && values[1..][i] == values[i + 1];
      ParseEachAll(items[1..], parse, values[1..]);
      assert values == [values[0]] + values[1..];
    }
  }

  /** `load_data`: a missing file (`None`) is an empty phonebook; otherwise one
      entry per line of the file, in file order, or the error of the first short line. */
  function Load(file: Option<string>): (r: Result<seq<Entry>, LoadError>)
    ensures file.None? ==> r == Ok([])
    ensures file.Some? && r.Ok? ==> |r.value| == |Lines(file.value)|
    ensures file.Some? && r.Ok? ==>
              forall i :: 0 <= i < |r.value| ==> ParseLine(Lines(file.value)[i]) == Ok(r.value[i])
    ensures file.Some? && r.Err? ==>
              && r.error.line < |Lines(file.value)|
              && ParseLine(Lines(file.value)[r.error.line]) == Err(MissingField(r.error.index))
              && forall i :: 0 <= i < r.error.line ==> ParseLine(Lines(file.value)[i]).Ok?
  {
    match file
    case None => Ok([])
    case Some(text) =>
      match ParseEach(Lines(text), ParseLine)
      case Ok(entries) => Ok(entries)
      case Err((line, missing)) => Err(MalformedLine(line, missing.index))
  }

  /** The lines `save_data` writes, one per entry, in phonebook order. */
  function SerializeAll(book: seq<Entry>): (lines: seq<string>)
    ensures |lines| == |book|
    ensures forall i :: 0 <= i < |book| ==> lines[i] == Serialize(book[i])
  {
    if book == [] then [] else [Serialize(book[0])] + SerializeAll(book[1..])
  }

  /** `save_data`: the text the file holds afterwards. */
  function Save(book: seq<Entry>): string
  {
    Concat(SerializeAll(book))
  }

  /** Read back line by line, the saved text has one line per entry, in
      phonebook order, each the entry's fields in stored order, as long as no
      field holds a line break. */
  lemma SaveLines(book: seq<Entry>)
    requires forall i :: 0 <= i < |book| ==> NoLineBreak(book[i])
    ensures Lines(Save(book)) == SerializeAll(book)
    ensures |Lines(Save(book))| == |book|
  {
    var ls := SerializeAll(book);
    forall i | 0 <= i < |ls|
      ensures IsTerminatedLine(ls[i])
    {
      SerializedLineTerminated(book[i]);
    }
    LinesConcat(ls);
  }

  /** An entry without line breaks serializes to exactly one line. */
  lemma SerializedLineTerminated(e: Entry)
    requires NoLineBreak(e)
    ensures IsTerminatedLine(Serialize(e))
  {
    var body := Join(Values(e), Delimiter);
    JoinExcludes(Values(e), Delimiter, '\n');
    assert Serialize(e)[..|Serialize(e)| - 1] == body;
  }

  /** Persistence round trip: loading what `save_data` wrote gives the same
      phonebook back, entry for entry and in order, for entries the format can hold. */
  lemma {:induction false} LoadSave(book: seq<Entry>)
    requires forall i :: 0 <= i < |book| ==> Storable(book[i])
    ensures Load(Some(Save(book))) == Ok(book)
  {
    SaveLines(book);
    ParseSerializedLines(book);
  }

  /** Parsing the serialized lines of storable entries gives the entries back. */
  lemma ParseSerializedLines(book: seq<Entry>)
    requires forall i :: 0 <= i < |book| ==> Storable(book[i])
    ensures ParseEach(SerializeAll(book), ParseLine) == Ok(book)
  {
    var lines := SerializeAll(book);
    forall i | 0 <= i < |book|
      ensures ParseLine(lines[i]) == Ok(book[i])
    {
      ParseSerialize(book[i]);
    }
    ParseEachAll(lines, ParseLine, book);
  }

  /** `add_entry`: append the entry, then save. Returns the new phonebook and
      the text of the file afterwards. */
  function AddEntry(book: seq<Entry>, entry: Entry): (r: (seq<Entry>, string))
    ensures |r.0| == |book| + 1
    ensures r.0[..|book|] == book
    ensures r.0[|book|] == entry
    ensures r.1 == Save(r.0)
  {
    var added := book + [entry];
    (added, Save(added))
  }

  /** After adding a storable entry to a storable phonebook, the written file
      loads back as the new phonebook. */
  lemma AddEntryLoadsBack(book: seq<Entry>, entry: Entry)
    requires forall i :: 0 <= i < |book| ==> Storable(book[i])
    requires Storable(entry)
    ensures Load(Some(AddEntry(book, entry).1)) == Ok(AddEntry(book, entry).0)
  {
    var added := AddEntry(book, entry).0;
    assert forall i :: 0 <= i < |added| ==> Storable(added[i]) by {
      forall i | 0 <= i < |added|
        ensures Storable(added[i])
      {
        if i < |book| {
          assert added[i] == book[i];
        }
      }
    }
    LoadSave(added);
  }

  /** The confirmation affirmatives, `'YyДд'`. */
  const Affirmatives: string := "Yy\U{0414}\U{0434}"

  /** `is_correct in 'YyДд'`: a substring test, not a choice among characters. */
  predicate Confirms(answer: string) {
    IsSubstring(answer, Affirmatives)
  }

  /** The answers that confirm an edit are exactly the eleven substrings of
      `'YyДд'`, the empty answer among them. */
  lemma ConfirmingAnswers(answer: string)
    ensures Confirms(answer) <==>
      answer in {"", "Y", "y", "\U{0414}", "\U{0434}", "Yy", "y\U{0414}", "\U{0414}\U{0434}",
                 "Yy\U{0414}", "y\U{0414}\U{0434}", "Yy\U{0414}\U{0434}"}
  {
    var a := Affirmatives;
    assert a[0..0] == "";
    assert a[0..1] == "Y" && a[1..2] == "y" && a[2..3] == "\U{0414}" && a[3..4] == "\U{0434}";
    assert a[0..2] == "Yy" && a[1..3] == "y\U{0414}" && a[2..4] == "\U{0414}\U{0434}";
    assert a[0..3] == "Yy\U{0414}" && a[1..4] == "y\U{0414}\U{0434}" && a[0..4] == a;
    if Confirms(answer) {
      var i, j :| 0 <= i <= j <= |a| && a[i..j] == answer;
      assert a[i..i] == "";
    }
  }

  /** `edit_entry`, one attempt: list every entry on a single page, take the
      1-based `choice`, and if it names an entry and the answer confirms,
      overwrite all six fields of that entry with the supplied ones (empty ones
      too). Listing an empty phonebook raises `ZeroDivisionError`. Nothing is saved. */
  function EditEntry(book: seq<Entry>, choice: int, entry: Entry, answer: string)
    : (r: Result<seq<Entry>, Paging.PagingError>)
    ensures r.Err? <==> book == []
    ensures r.Ok? ==> |r.value| == |book|
    ensures r.Ok? ==> forall i :: 0 <= i < |book| && i != choice - 1 ==> r.value[i] == book[i]
    ensures r.Ok? && 1 <= choice <= |book| && Confirms(answer) ==> r.value[choice - 1] == entry
    ensures r.Ok? && !(1 <= choice <= |book| && Confirms(answer)) ==> r.value == book
  {
    match Paging.Paginate(book, |book|)
    case Err(e) => Err(e)
    case Ok(_) =>
      var index := choice - 1;
      if 0 <= index < |book| && Confirms(answer) then Ok(book[index := entry]) else Ok(book)
  }

  /** Editing an empty phonebook raises instead of reporting that there is nothing to edit. */
  lemma EditEmptyBookRaises(choice: int, entry: Entry, answer: string)
    ensures EditEntry([], choice, entry, answer) == Err(Paging.ZeroDivision)
  {
  }

  /** `edit_entry` as evidently intended: an empty phonebook has no entry to
      edit, so the call leaves it unchanged instead of raising. */
  function EditEntryGuarded(book: seq<Entry>, choice: int, entry: Entry, answer: string): (r: seq<Entry>)
    ensures |r| == |book|
    ensures forall i :: 0 <= i < |book| && i != choice - 1 ==> r[i] == book[i]
    ensures 1 <= choice <= |book| && Confirms(answer) ==> r[choice - 1] == entry
    ensures !(1 <= choice <= |book| && Confirms(answer)) ==> r == book
    ensures book != [] ==> EditEntry(book, choice, entry, answer) == Ok(r)
  {
    if book == [] then book
    else
      Paging.OnePage(book);
      var index := choice - 1;
      if 0 <= index < |book| && Confirms(answer) then book[index := entry] else book
  }
}
