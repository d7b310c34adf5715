/**
 * The journal store (`useJournal.ts`): a list of entries, newest first,
 * with add, partial update and delete by id, and the lookup of today's
 * entry. Ids are millisecond timestamps supplied by the caller, so the
 * store does not enforce their uniqueness: update and delete act on every
 * entry carrying the id.
 */
module JournalStore {
  import opened Common
  import opened Types
  import opened CivilCalendar

  /** The initial list: the saved entries when a save exists and parses,
      otherwise empty. */
  function LoadEntries(saved: Option<seq<JournalEntry>>): (r: seq<JournalEntry>)
    ensures saved.None? ==> r == []
    ensures saved.Some? ==> r == saved.value
  {
    saved.GetOr([])
  }

  /** The fields of a new entry, everything except its id. */
  datatype EntryFields = EntryFields(date: string, content: string, mood: Mood, highlights: seq<string>)

  /** `addEntry`: the new entry, with the fresh id, goes in front. */
  function AddEntry(entries: seq<JournalEntry>, fields: EntryFields, id: string): (r: seq<JournalEntry>)
    ensures |r| == |entries| + 1
    ensures r[0].id == id && r[0].date == fields.date && r[0].content == fields.content
            && r[0].mood == fields.mood && r[0].highlights == fields.highlights
    ensures r[1..] == entries
  {
    [JournalEntry(id, fields.date, fields.content, fields.mood, fields.highlights)] + entries
  }

  /** `Partial<JournalEntry>`: each field may be present or absent. */
  datatype EntryPatch = EntryPatch(id: Option<string>, date: Option<string>, content: Option<string>,
                                   mood: Option<Mood>, highlights: Option<seq<string>>)

  const NoChanges := EntryPatch(None, None, None, None, None)

  /** `{ ...entry, ...updates }`: present fields replace, absent ones keep. */
  function ApplyPatch(e: JournalEntry, p: EntryPatch): (r: JournalEntry)
    ensures r.id == p.id.GetOr(e.id) && r.date == p.date.GetOr(e.date)
    ensures r.content == p.content.GetOr(e.content) && r.mood == p.mood.GetOr(e.mood)
    ensures r.highlights == p.highlights.GetOr(e.highlights)
  {
    JournalEntry(p.id.GetOr(e.id), p.date.GetOr(e.date), p.content.GetOr(e.content),
                 p.mood.GetOr(e.mood), p.highlights.GetOr(e.highlights))
  }

  /** `updateEntry`: every entry with the id takes the patch; the others,
      and the length and order of the list, stay as they are. */
  function UpdateEntry(entries: seq<JournalEntry>, id: string, p: EntryPatch): (r: seq<JournalEntry>)
    ensures |r| == |entries|
    ensures forall i :: 0 <= i < |entries| && entries[i].id == id ==> r[i] == ApplyPatch(entries[i], p)
    ensures forall i :: 0 <= i < |entries| && entries[i].id != id ==> r[i] == entries[i]
  {
    seq(|entries|, i requires 0 <= i < |entries| =>
      if entries[i].id == id then ApplyPatch(entries[i], p) else entries[i])
  }

  /** An update for an id no entry carries changes nothing. */
  lemma UpdateUnknownId(entries: seq<JournalEntry>, id: string, p: EntryPatch)
    requires forall i :: 0 <= i < |entries| ==> entries[i].id != id
    ensures UpdateEntry(entries, id, p) == entries
  {
  }

  /** An empty patch changes nothing. */
  lemma UpdateNoChanges(entries: seq<JournalEntry>, id: string)
    ensures UpdateEntry(entries, id, NoChanges) == entries
  {
    var r := UpdateEntry(entries, id, NoChanges);
    assert forall i :: 0 <= i < |entries| ==> r[i] == entries[i];
  }

  /** Applying the same update twice is applying it once, provided the
      patch does not move the entries to another id. */
  lemma UpdateTwice(entries: seq<JournalEntry>, id: string, p: EntryPatch)
    requires p.id.None? || p.id == Some(id)
    ensures UpdateEntry(UpdateEntry(entries, id, p), id, p) == UpdateEntry(entries, id, p)
  {
    var once := UpdateEntry(entries, id, p);
    var twice := UpdateEntry(once, id, p);
    assert forall i :: 0 <= i < |entries| ==> twice[i] == once[i];
  }

  /** A patch that changes the id moves the entries out of reach of a
      second update under the old id. */
  lemma UpdateRenamingIsNotRepeatable()
    ensures var e := JournalEntry("1", "d", "text", Good, []);
            var p := EntryPatch(Some("2"), None, Some("new"), None, None);
            var q := EntryPatch(None, None, Some("newer"), None, None);
            UpdateEntry(UpdateEntry([e], "1", p), "1", q) == UpdateEntry([e], "1", p)
  {
    var e := JournalEntry("1", "d", "text", Good, []);
    var p := EntryPatch(Some("2"), None, Some("new"), None, None);
    var once := UpdateEntry([e], "1", p);
    assert once[0].id == "2";
    assert "2" != "1";
  }

  /** `deleteEntry`: the entries without the id, in their order. */
  function DeleteEntry(entries: seq<JournalEntry>, id: string): (r: seq<JournalEntry>)
    ensures SubsequenceOf(r, entries)
    ensures forall i :: 0 <= i < |r| ==> r[i].id != id
    ensures forall i :: 0 <= i < |entries| && entries[i].id != id ==> entries[i] in r
    ensures forall e :: multiset(r)[e] == if e.id != id then multiset(entries)[e] else 0
  {
    FilterMultiset(entries, (e: JournalEntry) => e.id != id);
    Filter(entries, (e: JournalEntry) => e.id != id)
  }

  /** Deleting an id no entry carries changes nothing. */
  lemma DeleteUnknownId(entries: seq<JournalEntry>, id: string)
    requires forall i :: 0 <= i < |entries| ==> entries[i].id != id
    ensures DeleteEntry(entries, id) == entries
  {
    FilterKeepsAll(entries, (e: JournalEntry) => e.id != id);
  }

  /** Deleting twice is deleting once. */
  lemma DeleteIdempotent(entries: seq<JournalEntry>, id: string)
    ensures DeleteEntry(DeleteEntry(entries, id), id) == DeleteEntry(entries, id)
  {
    FilterIdempotent(entries, (e: JournalEntry) => e.id != id);
  }

  /** Deleting the id of an added entry removes it together with every
      older entry that happened to share the id. */
  lemma DeleteAfterAdd(entries: seq<JournalEntry>, fields: EntryFields, id: string)
    ensures DeleteEntry(AddEntry(entries, fields, id), id) == DeleteEntry(entries, id)
  {
    var added := AddEntry(entries, fields, id);
    assert added == [added[0]] + entries;
    FilterConcat([added[0]], entries, (e: JournalEntry) => e.id != id);
  }

  /** Adding an entry under a fresh id and deleting that id restores the
      list. */
  lemma AddThenDelete(entries: seq<JournalEntry>, fields: EntryFields, id: string)
    requires forall i :: 0 <= i < |entries| ==> entries[i].id != id
    ensures DeleteEntry(AddEntry(entries, fields, id), id) == entries
  {
    DeleteAfterAdd(entries, fields, id);
    DeleteUnknownId(entries, id);
  }

  /** An entry was written on day number `day` when its date parses to an
      instant of that local calendar day. */
  predicate WrittenOn(e: JournalEntry, parse: Parser, day: int) {
    DayOf(parse(e.date)) == Some(day)
  }

  /** `getTodayEntry`: the first entry, in stored order (newest first),
      written today; none when no entry was. */
  function TodayEntry(entries: seq<JournalEntry>, parse: Parser, today: int): (r: Option<JournalEntry>)
    ensures r.None? <==> forall i :: 0 <= i < |entries| ==> !WrittenOn(entries[i], parse, today)
    ensures r.Some? ==> r.value in entries && WrittenOn(r.value, parse, today)
    ensures forall i :: 0 <= i < |entries| && WrittenOn(entries[i], parse, today)
                        && (forall j :: 0 <= j < i ==> !WrittenOn(entries[j], parse, today))
                        ==> r == Some(entries[i])
  {
    FindFirst(entries, (e: JournalEntry) => WrittenOn(e, parse, today))
  }

  /** After an entry dated today is added, it is today's entry. */
  lemma AddedTodayIsTodayEntry(entries: seq<JournalEntry>, fields: EntryFields, id: string, parse: Parser, today: int)
    requires DayOf(parse(fields.date)) == Some(today)
    ensures TodayEntry(AddEntry(entries, fields, id), parse, today)
            == Some(JournalEntry(id, fields.date, fields.content, fields.mood, fields.highlights))
  {
    var added := AddEntry(entries, fields, id);
    assert WrittenOn(added[0], parse, today);
  }
}
