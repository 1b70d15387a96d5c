/** The lesson detail screen: the duration text, the sections of lesson details with
    their labels, values and visibility, and the clean-up of a lesson's resources. */
module LessonDocument {
  import opened Wrappers
  import opened Strings
  import JsMath

  // ---------------------------------------------------------------------------
  // Duration
  // ---------------------------------------------------------------------------

  /** `lz`: a number below 10 gets a leading "0"; others print as they are. A
      non-negative number prints as at least two digits that read back as it. */
  function Lz(n: int): (r: string)
    ensures n >= 0 ==> |r| >= 2 && AllDigits(r) && ParseNumber(r) == Some(n)
    ensures n < 10 ==> |r| >= 2 && r[0] == '0'
  {
    if n < 10 then
      if n >= 0 then ParseLeadingZero(ShowNat(n)); "0" + ShowInt(n) else "0" + ShowInt(n)
    else
      assert ShowNat(n) == ShowNat(n / 10) + [DigitChar(n % 10)];
      ShowInt(n)
  }

  /** A minute count of an hour, 0 to 59, prints as exactly two digits that read back as it. */
  lemma LzTwoDigits(n: int)
    requires 0 <= n < 60
    ensures |Lz(n)| == 2 && AllDigits(Lz(n))
    ensures ParseNumber(Lz(n)) == Some(n)
  {
    if n >= 10 {
      assert ShowNat(n) == ShowNat(n / 10) + [DigitChar(n % 10)];
      assert |ShowNat(n / 10)| == 1;
    }
  }

  /** `getDuration`: `Math.floor(m / 60)`, "h ", the padded `m % 60`, then " min". The
      text of a non-negative count has the form `"<H>h <MM> min"` and reads back as that
      count, the hour figure never zero-padded; a negative count gives a negative hour
      figure. */
  function GetDuration(minutes: int): (r: string)
    ensures minutes >= 0 ==> ReadDuration(r) == Some(minutes)
    ensures minutes >= 60 ==> |r| >= 1 && r[0] != '0'
    ensures minutes < 0 ==> |r| >= 1 && r[0] == '-'
  {
    var h, m := JsMath.FloorDiv(minutes, 60), JsMath.Rem(minutes, 60);
    var r := ShowInt(h) + "h " + Lz(m) + " min";
    assert minutes >= 60 ==> r[0] != '0' by {
      if minutes >= 60 {
        assert h >= 1 && ShowInt(h) == ShowNat(h);
        assert r[0] == ShowNat(h)[0];
      }
    }
    assert minutes >= 0 ==> ReadDuration(r) == Some(minutes) by {
      if minutes >= 0 {
        DurationText(minutes);
      }
    }
    r
  }

  /** Reads text of the form `"<H>h <MM> min"` as H * 60 + MM minutes. */
  function ReadDuration(s: string): Option<nat> {
    var parts := Split(s, "h ");
    if |parts| != 2 || parts[0] == "" || |parts[1]| != 6 || parts[1][2..] != " min" then None
    else
      match (ParseNumber(parts[0]), ParseNumber(parts[1][..2]))
      case (Some(h), Some(m)) => if m < 60 then Some(h * 60 + m) else None
      case _ => None
  }

  lemma DurationText(m: nat)
    ensures ReadDuration(ShowInt(JsMath.FloorDiv(m, 60)) + "h " + Lz(JsMath.Rem(m, 60)) + " min") == Some(m)
  {
    var h, r := m / 60, m % 60;
    assert JsMath.FloorDiv(m, 60) == h;
    assert JsMath.Rem(m, 60) == r;
    LzTwoDigits(r);
    ParseShow(h);
    ShownHasNoH(h);
    ReadDurationOf(ShowNat(h), Lz(r), h, r);
  }

  /** `"<a>h <d> min"`, with `a` a number of hours and `d` two digits of minutes, reads
      back as those hours and minutes. */
  lemma ReadDurationOf(a: string, d: string, h: nat, r: nat)
    requires 'h' !in a && a != [] && ParseNumber(a) == Some(h)
    requires |d| == 2 && AllDigits(d) && ParseNumber(d) == Some(r) && r < 60
    ensures ReadDuration(a + "h " + d + " min") == Some(h * 60 + r)
  {
    var tail := d + " min";
    assert a + "h " + d + " min" == a + "h " + tail;
    assert 'h' !in tail by {
      assert forall i :: 0 <= i < 2 ==> IsDigit(tail[i]);
      assert tail[2..] == " min";
    }
    SplitAfter(a, "h ", tail);
    SplitWhole(tail, "h ");
    assert tail[..2] == d;
  }

  lemma NinetyMinutes()
    ensures GetDuration(90) == "1h 30 min"
  {
    assert JsMath.FloorDiv(90, 60) == 1;
    assert JsMath.Rem(90, 60) == 30;
    assert ShowNat(30) == ShowNat(3) + [DigitChar(0)];
  }

  /** `Math.round((end - start) / 60000)`: the lesson's length in whole minutes, the
      nearest one, a half minute rounded up. */
  function LessonMinutes(start: int, end: int): (m: int)
    ensures m * 60000 - 30000 <= end - start < m * 60000 + 30000
  {
    var x := (end - start) as real / 60000.0;
    var r := JsMath.Round(x);
    assert r as real * 60000.0 - 30000.0 <= (end - start) as real < r as real * 60000.0 + 30000.0;
    r
  }

  /** On whole milliseconds the rounding is an integer division. */
  lemma LessonMinutesDivision(start: int, end: int)
    ensures LessonMinutes(start, end) == (end - start + 30000) / 60000
  {
  }

  // ---------------------------------------------------------------------------
  // Lesson details
  // ---------------------------------------------------------------------------

  datatype ResourceFile = ResourceFile(name: string, url: string)

  datatype Resource = Resource(
    title: Option<string>,
    description: Option<string>,
    category: Option<string>,
    files: Option<seq<ResourceFile>>)

  /** The lesson fields the screen reads; a missing one is `None`. */
  datatype Lesson = Lesson(
    startTimestamp: Option<int>,
    endTimestamp: Option<int>,
    url: Option<string>,
    building: Option<string>,
    room: Option<string>,
    teacher: Option<string>,
    group: Option<string>,
    statusText: Option<string>,
    ressource: Option<seq<Resource>>)

  /** One line of a section: its label, its value and whether it is enabled. */
  datatype Item = Item(text: string, value: Option<string>, enabled: bool)

  datatype Section = Section(title: string, items: seq<Item>)

  /** `value?.includes(",") ? plural : singular`: the plural label exactly when the value
      holds a comma. */
  function Label(value: Option<string>, singular: string, plural: string): (r: string)
    ensures r == (if value.Some? && ',' in value.value then plural else singular)
  {
    assert value.Some? ==> (Contains(value.value, ",") <==> ',' in value.value) by {
      if value.Some? {
        ContainsChar(value.value, ',');
      }
    }
    if value.Some? && Contains(value.value, ",") then plural else singular
  }

  /** `room.split(", ").join("\n")`: one room per line; without line breaks in the rooms,
      the lines are the rooms. */
  function RoomValue(room: string): (r: string)
    ensures '\n' !in room ==> Split(r, "\n") == Split(room, ", ")
  {
    var rooms := Split(room, ", ");
    if '\n' !in room then
      SplitPiecesWithin(room, ", ", '\n');
      SplitJoin(rooms, "\n");
      Join(rooms, "\n")
    else Join(rooms, "\n")
  }

  /** `group.replace(/\[|\]/g, "")`: every square bracket removed, every other character kept. */
  function GroupValue(group: string): (r: string)
    ensures '[' !in r && ']' !in r
    ensures forall c :: c in r <==> c in group && c != '[' && c != ']'
  {
    var r := RemoveChars(group, {'[', ']'});
    assert forall i :: 0 <= i < |r| ==> r[i] !in {'[', ']'};
    forall c ensures c in r <==> c in group && c != '[' && c != ']' {
      RemoveCharsMembers(group, {'[', ']'}, c);
    }
    r
  }

  /** Optional chaining, `value?.…`: a present value is passed through `f`, a missing one stays missing. */
  function MapValue(value: Option<string>, f: string -> string): (r: Option<string>)
    ensures r.Some? <==> value.Some?
    ensures r.Some? ==> r.value == f(value.value)
  {
    if value.Some? then Some(f(value.value)) else None
  }

  /** The duration line's value, when both timestamps are known: the lesson's length,
      which reads back as the rounded minute count when the end is not before the start. */
  function DurationValue(lesson: Lesson): (r: Option<string>)
    ensures r.Some? <==> lesson.startTimestamp.Some? && lesson.endTimestamp.Some?
    ensures r.Some? && lesson.startTimestamp.value <= lesson.endTimestamp.value
        ==> ReadDuration(r.value) == Some(LessonMinutes(lesson.startTimestamp.value, lesson.endTimestamp.value))
  {
    if lesson.startTimestamp.Some? && lesson.endTimestamp.Some?
    then Some(GetDuration(LessonMinutes(lesson.startTimestamp.value, lesson.endTimestamp.value)))
    else None
  }

  /** Some item of the list is enabled. */
  predicate AnyEnabled(items: seq<Item>) {
    exists i :: 0 <= i < |items| && items[i].enabled
  }

  /** The "Durée et horaires" section, `startText` being the locale-formatted start time:
      the start line is enabled by the start time, the duration line by the end time. */
  function TimingSection(lesson: Lesson, startText: string): (r: Section)
    ensures r.title == "Durée et horaires" && |r.items| == 2
    ensures r.items[0].value == Some(startText) && r.items[1].value == DurationValue(lesson)
    ensures r.items[0].enabled <==> lesson.startTimestamp.Some?
    ensures r.items[1].enabled <==> lesson.endTimestamp.Some?
    ensures AnyEnabled(r.items) <==> lesson.startTimestamp.Some? || lesson.endTimestamp.Some?
  {
    var items := [
      Item("Début du cours", Some(startText), lesson.startTimestamp.Some?),
      Item("Durée du cours", DurationValue(lesson), lesson.endTimestamp.Some?)];
    assert AnyEnabled(items) <==> items[0].enabled || items[1].enabled;
    Section("Durée et horaires", items)
  }

  /** The "Cours en ligne" section: one line with the URL, enabled by it, and a link
      exactly when the URL starts with "http". */
  function OnlineSection(lesson: Lesson): (r: Section)
    ensures r.title == "Cours en ligne" && |r.items| == 1 && r.items[0].value == lesson.url
    ensures AnyEnabled(r.items) <==> lesson.url.Some?
    ensures Tappable(r.items[0]) <==> lesson.url.Some? && |lesson.url.value| >= 4 && lesson.url.value[..4] == "http"
  {
    var items := [Item("URL du cours", lesson.url, lesson.url.Some?)];
    assert AnyEnabled(items) <==> items[0].enabled;
    Section("Cours en ligne", items)
  }

  /** The "Contexte" section: building, rooms, teacher and group, each enabled by its
      field, each label plural exactly when its value holds a comma. */
  function ContextSection(lesson: Lesson): (r: Section)
    ensures r.title == "Contexte" && |r.items| == 4
    ensures AnyEnabled(r.items)
        <==> lesson.building.Some? || lesson.room.Some? || lesson.teacher.Some? || lesson.group.Some?
    ensures r.items[0].enabled <==> lesson.building.Some?
    ensures r.items[1].enabled <==> lesson.room.Some?
    ensures r.items[2].enabled <==> lesson.teacher.Some?
    ensures r.items[3].enabled <==> lesson.group.Some?
    ensures r.items[0].text == (if lesson.building.Some? && ',' in lesson.building.value then "Bâtiments" else "Bâtiment")
    ensures r.items[1].text == (if lesson.room.Some? && ',' in lesson.room.value then "Salles de classe" else "Salle de classe")
    ensures r.items[2].text == (if lesson.teacher.Some? && ',' in lesson.teacher.value then "Professeurs" else "Professeur")
    ensures r.items[3].text == (if lesson.group.Some? && ',' in lesson.group.value then "Groupes" else "Groupe")
    ensures r.items[0].text == "Bâtiments" <==> lesson.building.Some? && ',' in lesson.building.value
    ensures r.items[1].text == "Salles de classe" <==> lesson.room.Some? && ',' in lesson.room.value
    ensures r.items[2].text == "Professeurs" <==> lesson.teacher.Some? && ',' in lesson.teacher.value
    ensures r.items[3].text == "Groupes" <==> lesson.group.Some? && ',' in lesson.group.value
    ensures r.items[0].value == lesson.building && r.items[2].value == lesson.teacher
    ensures r.items[1].value == MapValue(lesson.room, RoomValue)
    ensures r.items[3].value == MapValue(lesson.group, GroupValue)
  {
    var items := [
      Item(Label(lesson.building, "Bâtiment", "Bâtiments"), lesson.building, lesson.building.Some?),
      Item(Label(lesson.room, "Salle de classe", "Salles de classe"), MapValue(lesson.room, RoomValue), lesson.room.Some?),
      Item(Label(lesson.teacher, "Professeur", "Professeurs"), lesson.teacher, lesson.teacher.Some?),
      Item(Label(lesson.group, "Groupe", "Groupes"), MapValue(lesson.group, GroupValue), lesson.group.Some?)];
    AnyOfFour(items);
    Section("Contexte", items)
  }

  /** Some item of four is enabled exactly when one of the four is. */
  lemma AnyOfFour(items: seq<Item>)
    requires |items| == 4
    ensures AnyEnabled(items) <==> items[0].enabled || items[1].enabled || items[2].enabled || items[3].enabled
  {
    if items[0].enabled || items[1].enabled || items[2].enabled || items[3].enabled {
      var w := if items[0].enabled then 0 else if items[1].enabled then 1 else if items[2].enabled then 2 else 3;
      assert items[w].enabled;
    }
  }

  /** The "Statut" section: one line with the status text, enabled by it. */
  function StatusSection(lesson: Lesson): (r: Section)
    ensures r.title == "Statut" && |r.items| == 1 && r.items[0].value == lesson.statusText
    ensures AnyEnabled(r.items) <==> lesson.statusText.Some?
  {
    var items := [Item("Statut", lesson.statusText, lesson.statusText.Some?)];
    assert AnyEnabled(items) <==> items[0].enabled;
    Section("Statut", items)
  }

  /** `informations`: the four sections in screen order, under four different titles. */
  function Informations(lesson: Lesson, startText: string): (r: seq<Section>)
    ensures |r| == 4
    ensures r[0].title == "Durée et horaires" && r[1].title == "Cours en ligne"
    ensures r[2].title == "Contexte" && r[3].title == "Statut"
  {
    [TimingSection(lesson, startText), OnlineSection(lesson), ContextSection(lesson), StatusSection(lesson)]
  }

  /** The items a section renders: the enabled ones, in order. */
  function EnabledItems(items: seq<Item>): (r: seq<Item>)
    ensures forall it :: it in r <==> it in items && it.enabled
    ensures |r| <= |items|
    decreases |items|
  {
    if items == [] then []
    else (if items[0].enabled then [items[0]] else []) + EnabledItems(items[1..])
  }

  /** The rendered items are a filter: those of a concatenation are those of each part,
      in order, ... */
  lemma {:induction false} EnabledItemsAppend(a: seq<Item>, b: seq<Item>)
    ensures EnabledItems(a + b) == EnabledItems(a) + EnabledItems(b)
    decreases |a|
  {
    if a == [] {
      assert a + b == b;
    } else {
      var x := (if a[0].enabled then [a[0]] else []);
      assert (a + b)[0] == a[0];
      assert (a + b)[1..] == a[1..] + b;
      EnabledItemsAppend(a[1..], b);
      assert EnabledItems(a + b) == x + (EnabledItems(a[1..]) + EnabledItems(b));
      assert x + (EnabledItems(a[1..]) + EnabledItems(b)) == (x + EnabledItems(a[1..])) + EnabledItems(b);
    }
  }

  /** ... and a single item is kept exactly when it is enabled. */
  lemma EnabledItemsSingle(it: Item)
    ensures EnabledItems([it]) == if it.enabled then [it] else []
  {
    assert [it][1..] == [];
  }

  /** A section is rendered when at least one of its items is enabled. */
  predicate Rendered(s: Section) {
    EnabledItems(s.items) != []
  }

  /** A section is rendered exactly when one of its items is enabled. */
  lemma RenderedIffAnyEnabled(s: Section)
    ensures Rendered(s) <==> AnyEnabled(s.items)
  {
    var items := s.items;
    if Rendered(s) {
      var it := EnabledItems(items)[0];
      assert it in items;
    } else {
      forall i | 0 <= i < |items| ensures !items[i].enabled {
        assert items[i] !in EnabledItems(items);
      }
    }
  }

  /** The sections the screen renders, each with only its enabled items. */
  function RenderSections(sections: seq<Section>): (r: seq<Section>)
    ensures forall s :: s in r ==> s.items != [] && forall it :: it in s.items ==> it.enabled
    ensures forall s :: s in r <==>
      exists t :: t in sections && Rendered(t) && s == Section(t.title, EnabledItems(t.items))
    decreases |sections|
  {
    if sections == [] then []
    else
      var t := sections[0];
      assert forall u :: u in sections <==> u == t || u in sections[1..];
      (if Rendered(t) then [Section(t.title, EnabledItems(t.items))] else []) + RenderSections(sections[1..])
  }

  /** The rendered sections keep the screen order: those of a concatenation are those of
      each part, ... */
  lemma {:induction false} RenderSectionsAppend(a: seq<Section>, b: seq<Section>)
    ensures RenderSections(a + b) == RenderSections(a) + RenderSections(b)
    decreases |a|
  {
    if a == [] {
      assert a + b == b;
    } else {
      var x := if Rendered(a[0]) then [Section(a[0].title, EnabledItems(a[0].items))] else [];
      assert (a + b)[0] == a[0];
      assert (a + b)[1..] == a[1..] + b;
      RenderSectionsAppend(a[1..], b);
      assert RenderSections(a + b) == x + (RenderSections(a[1..]) + RenderSections(b));
      assert x + (RenderSections(a[1..]) + RenderSections(b)) == (x + RenderSections(a[1..])) + RenderSections(b);
    }
  }

  /** ... and a single section is rendered, with its enabled items only, exactly when one
      of its items is enabled. */
  lemma RenderSectionsSingle(t: Section)
    ensures RenderSections([t]) == if AnyEnabled(t.items) then [Section(t.title, EnabledItems(t.items))] else []
  {
    assert [t][1..] == [];
    RenderedIffAnyEnabled(t);
  }

  /** The screen shows a section with this title. */
  predicate Shows(shown: seq<Section>, title: string) {
    exists s :: s in shown && s.title == title
  }

  /** A section with a title of its own is shown exactly when one of its items is enabled. */
  lemma ShownIffSomeItemEnabled(sections: seq<Section>, k: nat)
    requires k < |sections|
    requires forall j :: 0 <= j < |sections| && j != k ==> sections[j].title != sections[k].title
    ensures Shows(RenderSections(sections), sections[k].title) <==> AnyEnabled(sections[k].items)
  {
    var sec := sections[k];
    RenderedIffAnyEnabled(sec);
    if Rendered(sec) {
      assert Section(sec.title, EnabledItems(sec.items)) in RenderSections(sections);
    }
  }

  /** The timing section appears exactly when the start or the end time is known. */
  lemma TimingShownIffTimestamp(lesson: Lesson, startText: string)
    ensures Shows(RenderSections(Informations(lesson, startText)), "Durée et horaires")
        <==> lesson.startTimestamp.Some? || lesson.endTimestamp.Some?
  {
    ShownIffSomeItemEnabled(Informations(lesson, startText), 0);
  }

  /** The online-lesson section appears exactly when the lesson has a URL. */
  lemma OnlineShownIffUrl(lesson: Lesson, startText: string)
    ensures Shows(RenderSections(Informations(lesson, startText)), "Cours en ligne") <==> lesson.url.Some?
  {
    ShownIffSomeItemEnabled(Informations(lesson, startText), 1);
  }

  /** The context section appears exactly when a building, room, teacher or group is known. */
  lemma ContextShownIffAnyField(lesson: Lesson, startText: string)
    ensures Shows(RenderSections(Informations(lesson, startText)), "Contexte")
        <==> lesson.building.Some? || lesson.room.Some? || lesson.teacher.Some? || lesson.group.Some?
  {
    ShownIffSomeItemEnabled(Informations(lesson, startText), 2);
  }

  /** The status section appears exactly when the lesson has a status text. */
  lemma StatusShownIffStatus(lesson: Lesson, startText: string)
    ensures Shows(RenderSections(Informations(lesson, startText)), "Statut") <==> lesson.statusText.Some?
  {
    ShownIffSomeItemEnabled(Informations(lesson, startText), 3);
  }

  /** Rooms joined with ", " come out one per line. */
  lemma RoomsOnePerLine(rooms: seq<string>)
    requires |rooms| >= 1
    requires forall i :: 0 <= i < |rooms| ==> ',' !in rooms[i]
    ensures RoomValue(Join(rooms, ", ")) == Join(rooms, "\n")
  {
    SplitJoin(rooms, ", ");
  }

  /** Reading the lines back and joining them with ", " restores a room list without line breaks. */
  lemma RoomValueRoundTrip(room: string)
    requires '\n' !in room
    ensures Join(Split(RoomValue(room), "\n"), ", ") == room
  {
    JoinSplit(room, ", ");
  }

  /** The brackets around a name are dropped and the name kept. */
  lemma GroupValueStripsBrackets(before: string, name: string, after: string)
    requires forall i :: 0 <= i < |name| ==> name[i] !in {'[', ']'}
    requires forall i :: 0 <= i < |before| ==> before[i] !in {'[', ']'}
    requires forall i :: 0 <= i < |after| ==> after[i] !in {'[', ']'}
    ensures GroupValue(before + "[" + name + "]" + after) == before + name + after
  {
    var drop := {'[', ']'};
    assert '[' in drop && ']' in drop;
    RemoveCharsAround(before, '[', name, ']', after, drop);
  }

  /** `item.value && item.value.startsWith("http")`: tapping opens the value as a link,
      exactly when it has a value whose first four characters are "http". */
  function Tappable(item: Item): (b: bool)
    ensures b <==> item.value.Some? && |item.value.value| >= 4 && item.value.value[..4] == "http"
  {
    item.value.Some? && StartsWith(item.value.value, "http")
  }

  // ---------------------------------------------------------------------------
  // Resources
  // ---------------------------------------------------------------------------

  /** `title.charAt(0).toUpperCase() + title.slice(1)`, or "" without a title. The
      first character's upper case may be two characters long ("ß" gives "SS"). */
  function ResourceTitle(title: Option<string>): (r: string)
    ensures title.None? ==> r == ""
    ensures title.Some? && title.value != [] && title.value[0] != 'ß' ==> |r| == |title.value|
    ensures title.Some? && title.value != [] && title.value[0] == 'ß' ==> |r| == |title.value| + 1
    ensures title.Some? && title.value == [] ==> r == ""
  {
    if title.None? || title.value == "" then ""
    else UpperCase(title.value[0]) + title.value[1..]
  }

  /** Only the first character changes; the rest of the title is kept. */
  lemma ResourceTitleKeepsRest(t: string)
    requires t != ""
    ensures var r := ResourceTitle(Some(t));
      var n := |UpperCase(t[0])|;
      n <= |r| && r[..n] == UpperCase(t[0]) && r[n..] == t[1..]
  {
  }

  /** Capitalising an already capitalised title changes nothing. */
  lemma ResourceTitleIdempotent(t: string)
    ensures ResourceTitle(Some(ResourceTitle(Some(t)))) == ResourceTitle(Some(t))
  {
    if t != "" {
      var u := UpperCase(t[0]);
      var r := ResourceTitle(Some(t));
      UpperCaseIdempotent(t[0]);
      assert r[0] == u[0];
      assert r[1..] == u[1..] + t[1..];
      assert [u[0]] + u[1..] == u;
    }
  }

  /** `description.replace("\n\n", "\n") ?? ""`. */
  function ResourceDescription(description: Option<string>): (r: string)
    ensures description.None? ==> r == ""
    ensures description.Some? && !Contains(description.value, "\n\n") ==> r == description.value
    ensures description.Some? && Contains(description.value, "\n\n") ==> |r| == |description.value| - 1
  {
    if description.None? then "" else ReplaceFirst(description.value, "\n\n", "\n")
  }

  /** Only the first double line break collapses; a later one is kept. */
  lemma DescriptionCollapsesFirstBreak(before: string, after: string)
    requires forall j :: 0 <= j < |before| ==> !OccursAt(before + "\n\n" + after, "\n\n", j)
    ensures ResourceDescription(Some(before + "\n\n" + after)) == before + "\n" + after
  {
    ReplaceFirstAt(before, "\n\n", after, "\n");
  }

  /** The "Contenu de séance" block appears when there is a class subject or a resource. */
  function ShowsSessionContent(classSubjectCount: nat, ressource: Option<seq<Resource>>): (b: bool)
    ensures b <==> classSubjectCount > 0 || (ressource.Some? && ressource.value != [])
  {
    classSubjectCount > 0 || (if ressource.Some? then |ressource.value| else 0) > 0
  }
}
