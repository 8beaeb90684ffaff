/** The lookup and formatting helpers the store and the view rely on. */
module Utils {
  import opened Wrappers
  import opened Notes
  import Decimal

  // ---------------------------------------------------------------------
  // Identifiers
  // ---------------------------------------------------------------------

  /** A fresh identifier: the decimal text of the clock reading (milliseconds
      since the epoch) taken at the call. */
  function GenerateId(clock: nat): (id: Id)
    ensures Decimal.AllDigits(id) && Decimal.Parse(id) == clock
  {
    Decimal.ParseShow(clock);
    Decimal.Show(clock)
  }

  /** Two creations at different clock readings get different identifiers. */
  lemma GenerateIdDistinct(a: nat, b: nat)
    requires a != b
    ensures GenerateId(a) != GenerateId(b)
  {
    Decimal.ShowInjective(a, b);
  }

  /** Every identifier in `ids` was generated at a clock reading before `clock`. */
  predicate GeneratedBefore(ids: seq<Id>, clock: nat) {
    forall i :: 0 <= i < |ids| ==> Decimal.AllDigits(ids[i]) && Decimal.Parse(ids[i]) < clock
  }

  /** An identifier generated after every identifier in `ids` is none of them. */
  lemma GenerateIdFresh(ids: seq<Id>, clock: nat)
    requires GeneratedBefore(ids, clock)
    ensures GenerateId(clock) !in ids
  {
  }

  // ---------------------------------------------------------------------
  // Notebook lookup
  // ---------------------------------------------------------------------

  /** `db.notebooks.find(nb => nb.id === id)`. */
  function FindNotebook(nbs: seq<Notebook>, id: Id): (r: Option<Notebook>)
    ensures r.None? <==> forall k :: 0 <= k < |nbs| ==> nbs[k].id != id
    ensures r.Some? ==> r.value in nbs && r.value.id == id
  {
    if |nbs| == 0 then None
    else if nbs[0].id == id then Some(nbs[0])
    else FindNotebook(nbs[1..], id)
  }

  /** `db.notebooks.findIndex(nb => nb.id === id)`: the first match, or -1. */
  function FindNotebookIndex(nbs: seq<Notebook>, id: Id): (r: int)
    ensures -1 <= r < |nbs|
    ensures r == -1 <==> forall k :: 0 <= k < |nbs| ==> nbs[k].id != id
    ensures 0 <= r ==> nbs[r].id == id && forall k :: 0 <= k < r ==> nbs[k].id != id
  {
    if |nbs| == 0 then -1
    else if nbs[0].id == id then 0
    else
      var r := FindNotebookIndex(nbs[1..], id);
      if r == -1 then -1 else r + 1
  }

  /** The notebook `FindNotebook` returns is the one at the index
      `FindNotebookIndex` returns. */
  lemma {:induction false} FindNotebookAgrees(nbs: seq<Notebook>, id: Id)
    ensures var i := FindNotebookIndex(nbs, id);
            FindNotebook(nbs, id) == if i == -1 then None else Some(nbs[i])
  {
    if |nbs| > 0 && nbs[0].id != id {
      FindNotebookAgrees(nbs[1..], id);
    }
  }

  // ---------------------------------------------------------------------
  // Note lookup
  // ---------------------------------------------------------------------

  /** `notebook.notes.find(note => note.id === id)`. */
  function FirstNote(notes: seq<Note>, id: Id): (r: Option<Note>)
    ensures r.None? <==> forall j :: 0 <= j < |notes| ==> notes[j].id != id
    ensures r.Some? ==> r.value in notes && r.value.id == id
  {
    if |notes| == 0 then None
    else if notes[0].id == id then Some(notes[0])
    else FirstNote(notes[1..], id)
  }

  /** `notebook.notes.findIndex(note => note.id === id)`: the first match, or -1. */
  function FindNoteIndex(notes: seq<Note>, id: Id): (r: int)
    ensures -1 <= r < |notes|
    ensures r == -1 <==> forall j :: 0 <= j < |notes| ==> notes[j].id != id
    ensures 0 <= r ==> notes[r].id == id && forall j :: 0 <= j < r ==> notes[j].id != id
  {
    if |notes| == 0 then -1
    else if notes[0].id == id then 0
    else
      var r := FindNoteIndex(notes[1..], id);
      if r == -1 then -1 else r + 1
  }

  /** `find` and `findIndex` on the notes of one notebook pick the same note. */
  lemma {:induction false} FirstNoteAgrees(notes: seq<Note>, id: Id)
    ensures var j := FindNoteIndex(notes, id);
            FirstNote(notes, id) == if j == -1 then None else Some(notes[j])
  {
    if |notes| > 0 && notes[0].id != id {
      FirstNoteAgrees(notes[1..], id);
    }
  }

  /** No note of any notebook has identifier `id`. */
  predicate NoNoteWithId(nbs: seq<Notebook>, id: Id) {
    forall k, j :: 0 <= k < |nbs| && 0 <= j < |nbs[k].notes| ==> nbs[k].notes[j].id != id
  }

  /** `findNote`: scan the notebooks in order, `find` in each, stop at the
      first hit. */
  function FindNote(nbs: seq<Notebook>, id: Id): (r: Option<Note>)
    ensures r.None? <==> NoNoteWithId(nbs, id)
    ensures r.Some? ==> r.value.id == id && exists k :: 0 <= k < |nbs| && r.value in nbs[k].notes
  {
    if |nbs| == 0 then None
    else match FirstNote(nbs[0].notes, id)
      case Some(n) => Some(n)
      case None =>
        var r := FindNote(nbs[1..], id);
        assert r.Some? ==> exists k :: 0 <= k < |nbs[1..]| && r.value in nbs[1..][k].notes;
        assert r.Some? ==> exists k :: 0 <= k < |nbs| && r.value in nbs[k].notes;
        r
  }

  /** Where a note sits: notebook index and index within that notebook's notes. */
  datatype NotePos = NotePos(book: nat, slot: nat)

  /** `p` is the first place, scanning notebooks in order and each notebook's
      notes in order, that holds a note with identifier `id`. */
  predicate IsFirstNote(nbs: seq<Notebook>, id: Id, p: NotePos) {
    && p.book < |nbs|
    && p.slot < |nbs[p.book].notes|
    && nbs[p.book].notes[p.slot].id == id
    && NoNoteWithId(nbs[..p.book], id)
    && forall j :: 0 <= j < p.slot ==> nbs[p.book].notes[j].id != id
  }

  /** The position of the note `FindNote` finds. */
  function LocateNote(nbs: seq<Notebook>, id: Id): (r: Option<NotePos>)
    ensures r.None? <==> NoNoteWithId(nbs, id)
    ensures r.Some? ==> IsFirstNote(nbs, id, r.value)
  {
    if |nbs| == 0 then None
    else
      var j := FindNoteIndex(nbs[0].notes, id);
      if j >= 0 then Some(NotePos(0, j))
      else match LocateNote(nbs[1..], id)
        case None => None
        case Some(p) =>
          assert nbs[1..][..p.book] == nbs[1..p.book + 1];
          assert nbs[..p.book + 1] == [nbs[0]] + nbs[1..p.book + 1];
          Some(NotePos(p.book + 1, p.slot))
  }

  /** `FindNote` returns exactly the note at the position `LocateNote` gives. */
  lemma {:induction false} FindNoteLocates(nbs: seq<Notebook>, id: Id)
    ensures FindNote(nbs, id) ==
            match LocateNote(nbs, id)
            case None => None
            case Some(p) => Some(nbs[p.book].notes[p.slot])
  {
    if |nbs| > 0 {
      FirstNoteAgrees(nbs[0].notes, id);
      if FindNoteIndex(nbs[0].notes, id) == -1 {
        FindNoteLocates(nbs[1..], id);
      }
    }
  }

  // ---------------------------------------------------------------------
  // Formatting
  // ---------------------------------------------------------------------

  /** "`count` `unit`[s] ago", with the plural "s" exactly when `count` > 1. */
  function Ago(count: nat, unit: string): (r: string)
    requires 1 <= count
    ensures 0 < |r| && Decimal.IsDigit(r[0])
    ensures var k := |Decimal.Show(count)|;
            k <= |r| && Decimal.AllDigits(r[..k]) && Decimal.Parse(r[..k]) == count
    ensures 4 <= |r| && r[|r| - 4..] == " ago"
    ensures count > 1 <==> r[..|r| - 4] == Decimal.Show(count) + " " + unit + "s"
    ensures count == 1 ==> r == "1 " + unit + " ago"
  {
    Decimal.ParseShow(count);
    var shown := Decimal.Show(count) + " " + unit + (if count > 1 then "s" else "") + " ago";
    assert shown[..|Decimal.Show(count)|] == Decimal.Show(count);
    shown
  }

  const MinuteMs := 60000
  const HourMs := 3600000
  const DayMs := 86400000

  /** `getRelativeTime(postedOn)` with the clock reading `now` as a parameter;
      the floating-point divisions followed by `Math.floor` are floor
      divisions of whole milliseconds. */
  function RelativeTime(postedOn: int, now: int): (r: string)
    ensures r == "Just now" <==> now - postedOn < MinuteMs
  {
    var minute := (now - postedOn) / 60000;
    var hour := minute / 60;
    var day := hour / 24;
    if minute < 1 then "Just now"
    else if minute < 60 then Ago(minute, "min")
    else if hour < 24 then Ago(hour, "hour")
    else Ago(day, "day")
  }

  /** The relative-time label read off the elapsed milliseconds directly:
      which unit applies, and the count it shows. */
  lemma RelativeTimeByElapsed(postedOn: int, now: int)
    ensures var e := now - postedOn;
            && (MinuteMs <= e < HourMs ==> RelativeTime(postedOn, now) == Ago(e / MinuteMs, "min"))
            && (HourMs <= e < DayMs ==> RelativeTime(postedOn, now) == Ago(e / HourMs, "hour"))
            && (DayMs <= e ==> RelativeTime(postedOn, now) == Ago(e / DayMs, "day"))
  {
    var e := now - postedOn;
    if e >= MinuteMs {
      assert e / 60000 / 60 == e / 3600000;
      assert e / 3600000 / 24 == e / 86400000;
    }
  }

  /** The four sample ages: half a minute, a minute and a half, two hours, two days. */
  lemma RelativeTimeExamples(now: int)
    ensures RelativeTime(now - 30000, now) == "Just now"
    ensures RelativeTime(now - 90000, now) == "1 min ago"
    ensures RelativeTime(now - 7200000, now) == "2 hours ago"
    ensures RelativeTime(now - 172800000, now) == "2 days ago"
  {
    AgoLabels();
    assert RelativeTime(now - 90000, now) == Ago(1, "min");
    assert RelativeTime(now - 7200000, now) == Ago(2, "hour");
    assert RelativeTime(now - 172800000, now) == Ago(2, "day");
  }

  /** The labels the sample ages produce. */
  lemma AgoLabels()
    ensures Ago(1, "min") == "1 min ago"
    ensures Ago(2, "hour") == "2 hours ago"
    ensures Ago(2, "day") == "2 days ago"
  {
    assert Decimal.Show(1) == "1" && Decimal.Show(2) == "2";
    assert "1" + " " + "min" + "" + " ago" == "1 min ago";
    assert "2" + " " + "hour" + "s" + " ago" == "2 hours ago";
    assert "2" + " " + "day" + "s" + " ago" == "2 days ago";
  }

  /** `getGreetingMsg(hour)`: the greeting for an hour of the day. */
  function GreetingMsg(hour: int): (r: string)
    ensures r == "Good Night" <==> hour < 5 || 20 <= hour
    ensures r == "Good Morning" <==> 5 <= hour < 12
    ensures r == "Good Noon" <==> 12 <= hour < 15
    ensures r == "Good Evening" <==> 15 <= hour < 20
  {
    var greeting :=
      if hour < 5 then "Night"
      else if hour < 12 then "Morning"
      else if hour < 15 then "Noon"
      else if hour < 20 then "Evening"
      else "Night";
    assert "Good " + "Night" == "Good Night";
    assert "Good " + "Morning" == "Good Morning";
    assert "Good " + "Noon" == "Good Noon";
    assert "Good " + "Evening" == "Good Evening";
    "Good " + greeting
  }
}
