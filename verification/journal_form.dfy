/**
 * The journal page's entry form (`Journal.tsx`): the draft being written,
 * the save guard that turns it into a stored entry, the edits of its list
 * of highlights, and which buttons the page offers.
 */
module JournalForm {
  import opened Common
  import opened Types
  import opened JournalStore
  import opened CivilCalendar

  // ---------------------------------------------------------------------
  // String.prototype.trim
  // ---------------------------------------------------------------------

  /** The characters `trim` removes: white space and line terminators as
      section 12.2 and 12.3 of ECMA-262 define them (tab, vertical tab, form
      feed, space, no-break space, the byte order mark, the other Unicode
      space separators, line feed, carriage return, and the line and
      paragraph separators). */
  predicate IsJsWhitespace(c: char) {
    c == '\t' || c == '\n' || c == '\U{000B}' || c == '\U{000C}' || c == '\r' || c == ' '
    || c == '\U{00A0}' || c == '\U{1680}' || ('\U{2000}' <= c <= '\U{200A}')
    || c == '\U{2028}' || c == '\U{2029}' || c == '\U{202F}' || c == '\U{205F}'
    || c == '\U{3000}' || c == '\U{FEFF}'
  }

  /** The string without its leading white space. */
  function TrimStart(s: string): (r: string)
    ensures |r| <= |s| && r == s[|s| - |r|..]
    ensures forall i :: 0 <= i < |s| - |r| ==> IsJsWhitespace(s[i])
    ensures |r| > 0 ==> !IsJsWhitespace(r[0])
  {
    if |s| > 0 && IsJsWhitespace(s[0]) then TrimStart(s[1..]) else s
  }

  /** The string without its trailing white space. */
  function TrimEnd(s: string): (r: string)
    ensures |r| <= |s| && r == s[..|r|]
    ensures forall i :: |r| <= i < |s| ==> IsJsWhitespace(s[i])
    ensures |r| > 0 ==> !IsJsWhitespace(r[|r| - 1])
  {
    if |s| > 0 && IsJsWhitespace(s[|s| - 1]) then TrimEnd(s[..|s| - 1]) else s
  }

  /** How many white-space characters `s` starts with. */
  function LeadingWhitespace(s: string): (n: nat)
    ensures n <= |s|
    ensures forall i :: 0 <= i < n ==> IsJsWhitespace(s[i])
    ensures n < |s| ==> !IsJsWhitespace(s[n])
  {
    if |s| > 0 && IsJsWhitespace(s[0]) then 1 + LeadingWhitespace(s[1..]) else 0
  }

  /** `String.prototype.trim`: the slice of `s` after its leading white
      space that does not end with white space, with only white space after
      it. Together these pin the result down. */
  function Trim(s: string): (r: string)
    ensures LeadingWhitespace(s) + |r| <= |s|
    ensures r == s[LeadingWhitespace(s)..LeadingWhitespace(s) + |r|]
    ensures forall k :: LeadingWhitespace(s) + |r| <= k < |s| ==> IsJsWhitespace(s[k])
    ensures |r| > 0 ==> !IsJsWhitespace(r[0]) && !IsJsWhitespace(r[|r| - 1])
  {
    TrimStartDropsLeading(s);
    var r := TrimEnd(TrimStart(s));
    TrimEndOfSuffix(s, LeadingWhitespace(s), r);
    r
  }

  /** The contract of `Trim` admits one string only: any slice after the
      leading white space that does not end with white space and has only
      white space after it is the trimmed string. */
  lemma TrimDetermined(s: string, t: string)
    requires LeadingWhitespace(s) + |t| <= |s|
    requires t == s[LeadingWhitespace(s)..LeadingWhitespace(s) + |t|]
    requires forall k :: LeadingWhitespace(s) + |t| <= k < |s| ==> IsJsWhitespace(s[k])
    requires |t| > 0 ==> !IsJsWhitespace(t[|t| - 1])
    ensures |t| == |Trim(s)| && forall i :: 0 <= i < |t| ==> t[i] == Trim(s)[i]
  {
    TrimmedSliceUnique(s, LeadingWhitespace(s), Trim(s), t);
  }

  /** Two slices from `n`, each not ending with white space and each
      followed only by white space, are the same slice. */
  lemma TrimmedSliceUnique(s: string, n: nat, a: string, b: string)
    requires n + |a| <= |s| && a == s[n..n + |a|]
    requires n + |b| <= |s| && b == s[n..n + |b|]
    requires forall k :: n + |a| <= k < |s| ==> IsJsWhitespace(s[k])
    requires forall k :: n + |b| <= k < |s| ==> IsJsWhitespace(s[k])
    requires |a| > 0 ==> !IsJsWhitespace(a[|a| - 1])
    requires |b| > 0 ==> !IsJsWhitespace(b[|b| - 1])
    ensures a == b
  {
    SliceEnd(s, n, a);
    SliceEnd(s, n, b);
    NoLongerThan(s, n, a, b);
    NoLongerThan(s, n, b, a);
  }

  /** The last character of a slice is the character of `s` it came from. */
  lemma SliceEnd(s: string, n: nat, t: string)
    requires n + |t| <= |s| && t == s[n..n + |t|]
    ensures |t| > 0 ==> s[n + |t| - 1] == t[|t| - 1]
  {
  }

  /** A slice from `n` whose last character is not white space ends no
      later than a slice from `n` after which there is only white space. */
  lemma NoLongerThan(s: string, n: nat, a: string, b: string)
    requires n + |a| <= |s| && n + |b| <= |s|
    requires forall k :: n + |b| <= k < |s| ==> IsJsWhitespace(s[k])
    requires |a| > 0 ==> !IsJsWhitespace(s[n + |a| - 1])
    ensures |a| <= |b|
  {
  }

  /** Trimming the end of the suffix from `start` keeps a slice of `s`,
      and cuts off only white space after it. */
  lemma TrimEndOfSuffix(s: string, start: nat, r: string)
    requires start <= |s| && r == TrimEnd(s[start..])
    ensures start + |r| <= |s| && r == s[start..start + |r|]
    ensures forall k :: start + |r| <= k < |s| ==> IsJsWhitespace(s[k])
  {
    var front := s[start..];
    assert forall k :: start + |r| <= k < |s| ==> s[k] == front[k - start];
  }

  /** `TrimStart` drops exactly the leading white space. */
  lemma {:induction false} TrimStartDropsLeading(s: string)
    ensures TrimStart(s) == s[LeadingWhitespace(s)..]
  {
    if |s| > 0 && IsJsWhitespace(s[0]) {
      TrimStartDropsLeading(s[1..]);
    }
  }

  /** A string trims to the empty string exactly when it is all white
      space; that is when `s.trim()` is falsy. */
  lemma TrimEmptyIff(s: string)
    ensures Trim(s) == "" <==> forall i :: 0 <= i < |s| ==> IsJsWhitespace(s[i])
  {
    var front := TrimStart(s);
    if forall i :: 0 <= i < |s| ==> IsJsWhitespace(s[i]) {
      TrimStartAllWhitespace(s);
    } else {
      assert |front| > 0;
      assert |TrimEnd(front)| > 0;
    }
  }

  /** A string of white space trims to nothing from the front. */
  lemma {:induction false} TrimStartAllWhitespace(s: string)
    requires forall i :: 0 <= i < |s| ==> IsJsWhitespace(s[i])
    ensures TrimStart(s) == ""
  {
    if |s| > 0 {
      TrimStartAllWhitespace(s[1..]);
    }
  }

  /** The text has something besides white space (`text.trim()` is
      truthy). */
  predicate HasText(s: string) {
    Trim(s) != ""
  }

  // ---------------------------------------------------------------------
  // The draft and the save guard
  // ---------------------------------------------------------------------

  datatype Draft = Draft(content: string, mood: Mood, highlights: seq<string>)

  /** The draft the form starts from and returns to after a save. */
  const EmptyDraft := Draft("", Good, [""])

  /** The form: its draft, and whether it is open. */
  datatype Form = Form(draft: Draft, open: bool)

  /** The highlights kept on save: the non-blank ones, in order, exactly
      as typed (not trimmed). */
  function KeptHighlights(highlights: seq<string>): (r: seq<string>)
    ensures SubsequenceOf(r, highlights)
    ensures forall i :: 0 <= i < |r| ==> HasText(r[i])
    ensures forall i :: 0 <= i < |highlights| && HasText(highlights[i]) ==> highlights[i] in r
    ensures forall h :: multiset(r)[h] == if HasText(h) then multiset(highlights)[h] else 0
  {
    FilterMultiset(highlights, (h: string) => HasText(h));
    Filter(highlights, (h: string) => HasText(h))
  }

  datatype SaveOutcome = SaveOutcome(entries: seq<JournalEntry>, form: Form)

  /** `handleSaveEntry`: with text in the draft, the entry (dated `now`,
      under the fresh id) is added, the draft is reset and the form
      closes; with a blank draft nothing changes. */
  function SaveEntry(entries: seq<JournalEntry>, form: Form, now: string, id: string): (r: SaveOutcome)
    ensures !HasText(form.draft.content) ==> r == SaveOutcome(entries, form)
    ensures HasText(form.draft.content) ==>
              r.entries == AddEntry(entries, EntryFields(now, form.draft.content, form.draft.mood,
                                                         KeptHighlights(form.draft.highlights)), id)
              && r.form == Form(EmptyDraft, false)
  {
    if HasText(form.draft.content) then
      var fields := EntryFields(now, form.draft.content, form.draft.mood, KeptHighlights(form.draft.highlights));
      SaveOutcome(AddEntry(entries, fields, id), Form(EmptyDraft, false))
    else
      SaveOutcome(entries, form)
  }

  /** A saved entry holds the draft's content untrimmed and only highlights
      with text, and it becomes today's entry when `now` falls on today. */
  lemma SavedEntryShape(entries: seq<JournalEntry>, form: Form, now: string, id: string, parse: Parser, today: int)
    requires HasText(form.draft.content)
    requires DayOf(parse(now)) == Some(today)
    ensures var r := SaveEntry(entries, form, now, id);
            |r.entries| == |entries| + 1
            && r.entries[0].content == form.draft.content
            && (forall i :: 0 <= i < |r.entries[0].highlights| ==> HasText(r.entries[0].highlights[i]))
            && TodayEntry(r.entries, parse, today).Some?
            && !ShowsNewEntryButton(r.entries, parse, today)
  {
    var fields := EntryFields(now, form.draft.content, form.draft.mood, KeptHighlights(form.draft.highlights));
    AddedTodayIsTodayEntry(entries, fields, id, parse, today);
  }

  // ---------------------------------------------------------------------
  // Highlight edits
  // ---------------------------------------------------------------------

  /** `addHighlight`: one more, empty, highlight at the end. */
  function AddHighlight(d: Draft): (r: Draft)
    ensures r.highlights == d.highlights + [""]
    ensures r.content == d.content && r.mood == d.mood
  {
    d.(highlights := d.highlights + [""])
  }

  /** `updateHighlight`: the highlight at `index` takes the value; the rest
      stay; an index outside the list changes nothing. */
  function UpdateHighlight(d: Draft, index: int, value: string): (r: Draft)
    ensures |r.highlights| == |d.highlights|
    ensures forall i :: 0 <= i < |d.highlights| ==> r.highlights[i] == if i == index then value else d.highlights[i]
    ensures r.content == d.content && r.mood == d.mood
  {
    d.(highlights := seq(|d.highlights|, i requires 0 <= i < |d.highlights| =>
                                          if i == index then value else d.highlights[i]))
  }

  /** `removeHighlight`: the highlight at `index` is dropped and the others
      keep their order; an index outside the list changes nothing. */
  function RemoveHighlight(d: Draft, index: int): (r: Draft)
    ensures 0 <= index < |d.highlights| ==> |r.highlights| == |d.highlights| - 1
    ensures 0 <= index < |d.highlights| ==>
              forall i :: 0 <= i < |r.highlights| ==>
                r.highlights[i] == if i < index then d.highlights[i] else d.highlights[i + 1]
    ensures !(0 <= index < |d.highlights|) ==> r.highlights == d.highlights
    ensures r.content == d.content && r.mood == d.mood
  {
    if 0 <= index < |d.highlights| then
      d.(highlights := d.highlights[..index] + d.highlights[index + 1..])
    else d
  }

  /** The remove button is shown only when there is more than one
      highlight. */
  predicate ShowsRemoveButton(d: Draft) {
    |d.highlights| > 1
  }

  /** Edits the page can make through its buttons and inputs. */
  datatype HighlightEdit = Add | Update(index: int, value: string) | Remove(index: int)

  /** An edit as the page performs it: removal only through a shown
      button. */
  function ApplyEdit(d: Draft, e: HighlightEdit): (r: Draft)
    ensures |d.highlights| > 0 ==> |r.highlights| > 0
  {
    match e
    case Add => AddHighlight(d)
    case Update(i, v) => UpdateHighlight(d, i, v)
    case Remove(i) => if ShowsRemoveButton(d) then RemoveHighlight(d, i) else d
  }

  /** Any sequence of edits made through the page, starting from a draft
      with a highlight field (the empty draft has one), leaves at least one
      highlight field. */
  lemma {:induction false} EditsKeepAHighlight(d: Draft, edits: seq<HighlightEdit>)
    requires |d.highlights| > 0
    ensures |ApplyEdits(d, edits).highlights| > 0
    decreases |edits|
  {
    if |edits| > 0 {
      EditsKeepAHighlight(ApplyEdit(d, edits[0]), edits[1..]);
    }
  }

  function ApplyEdits(d: Draft, edits: seq<HighlightEdit>): Draft
    decreases |edits|
  {
    if |edits| == 0 then d else ApplyEdits(ApplyEdit(d, edits[0]), edits[1..])
  }

  /** The "New Entry" button is shown only when no entry was written today. */
  predicate ShowsNewEntryButton(entries: seq<JournalEntry>, parse: Parser, today: int) {
    TodayEntry(entries, parse, today).None?
  }

  /** The button is shown exactly when no entry falls on today. */
  lemma NewEntryButtonIff(entries: seq<JournalEntry>, parse: Parser, today: int)
    ensures ShowsNewEntryButton(entries, parse, today)
            <==> forall i :: 0 <= i < |entries| ==> !WrittenOn(entries[i], parse, today)
  {
  }
}
