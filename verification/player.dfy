/** The course player modal: opening a course lists its modules and loads the
    first; a module can be picked from the list or stepped to with the
    previous/next buttons, which stop at either end. */
module Player {

  datatype Module = Module(title: string, video: string)

  /** The course table: course name to its modules. */
  type Catalog = map<string, seq<Module>>

  /** The course an unknown name falls back to. */
  const FullStack := "Full-Stack Web Development"

  /** What the page's table guarantees: the fallback course exists, every
      course has a module, and no course is named by the empty string the
      player starts with. */
  predicate WellFormed(cat: Catalog) {
    && FullStack in cat
    && "" !in cat
    && forall name :: name in cat ==> |cat[name]| > 0
  }

  /** `currentCourse`, `currentIndex`, the module list on screen and the
      video loaded in the frame. */
  datatype State = State(course: string, index: nat, shown: seq<Module>, video: string)

  const Closed := State("", 0, [], "")

  /** The list on screen is the course's own list when the course is in the
      table, the index points into it, and the frame shows that module. */
  predicate Inv(cat: Catalog, st: State) {
    && (st.shown == [] ==> st.index == 0 && st.course !in cat)
    && (st.shown != [] ==> st.index < |st.shown| && st.video == st.shown[st.index].video)
    && (st.course in cat ==> st.shown == cat[st.course])
  }

  lemma ClosedInv(cat: Catalog)
    requires WellFormed(cat)
    ensures Inv(cat, Closed)
  {
  }

  /** The modules `openCourse` shows: the course's own, or the fallback's. */
  function ModulesFor(cat: Catalog, name: string): (mods: seq<Module>)
    requires WellFormed(cat)
    ensures |mods| > 0
    ensures name in cat ==> mods == cat[name]
    ensures name !in cat ==> mods == cat[FullStack]
  {
    if name in cat then cat[name] else cat[FullStack]
  }

  /** `openCourse`: remember the name as given, start at the first module. */
  function OpenCourse(cat: Catalog, name: string): (st: State)
    requires WellFormed(cat)
    ensures Inv(cat, st)
    ensures st.course == name && st.index == 0
    ensures st.shown == ModulesFor(cat, name) && st.video == st.shown[0].video
  {
    var mods := ModulesFor(cat, name);
    State(name, 0, mods, mods[0].video)
  }

  /** A click on the i-th entry of the list on screen. */
  function Select(cat: Catalog, st: State, i: nat): (r: State)
    requires Inv(cat, st) && i < |st.shown|
    ensures Inv(cat, r)
    ensures r.index == i && r.video == st.shown[i].video
    ensures r.course == st.course && r.shown == st.shown
  {
    st.(index := i, video := st.shown[i].video)
  }

  /** `courseMap[currentCourse] || []`: the list the step buttons use. */
  function StepList(cat: Catalog, st: State): seq<Module> {
    if st.course in cat then cat[st.course] else []
  }

  /** The previous button as written: one back, not below the first module;
      nothing at all unless the course name is in the table. */
  function Prev(cat: Catalog, st: State): (r: State)
    requires Inv(cat, st)
    ensures Inv(cat, r)
    ensures r.course == st.course && r.shown == st.shown
    ensures st.course in cat ==> r.index == if st.index == 0 then 0 else st.index - 1
    ensures st.course !in cat ==> r == st
  {
    var mods := StepList(cat, st);
    if |mods| == 0 then st
    else
      var i := if st.index == 0 then 0 else st.index - 1;
      st.(index := i, video := mods[i].video)
  }

  /** The next button as written: one on, not past the last module; nothing
      at all unless the course name is in the table. */
  function Next(cat: Catalog, st: State): (r: State)
    requires Inv(cat, st)
    ensures Inv(cat, r)
    ensures r.course == st.course && r.shown == st.shown
    ensures st.course in cat ==> r.index == if st.index + 1 < |st.shown| then st.index + 1 else |st.shown| - 1
    ensures st.course !in cat ==> r == st
  {
    var mods := StepList(cat, st);
    if |mods| == 0 then st
    else
      var i := if st.index + 1 < |mods| then st.index + 1 else |mods| - 1;
      st.(index := i, video := mods[i].video)
  }

  /** The buttons stop at the ends. */
  lemma StepsClamp(cat: Catalog, st: State)
    requires Inv(cat, st) && st.course in cat
    ensures st.index == 0 ==> Prev(cat, st) == st
    ensures st.index == |st.shown| - 1 ==> Next(cat, st) == st
  {
  }

  /** Back after forward returns to the same module, except at the end. */
  lemma PrevUndoesNext(cat: Catalog, st: State)
    requires Inv(cat, st) && st.course in cat
    requires st.index + 1 < |st.shown|
    ensures Prev(cat, Next(cat, st)) == st
  {
  }

  /** As written, a course name missing from the table shows the fallback's
      modules, yet the step buttons look the name up again, find nothing and
      stay on the first module. */
  lemma StepButtonsStallOnFallback(cat: Catalog, name: string)
    requires WellFormed(cat) && name !in cat && |cat[FullStack]| > 1
    ensures var st := OpenCourse(cat, name);
            |st.shown| > 1 && Next(cat, st) == st && Next(cat, st).index == 0
  {
  }

  /* ---------- corrected step buttons ---------- */

  /** The step buttons walking the list on screen, which for a course in the
      table is the table's list and for any other name the fallback's. */
  function PrevShown(cat: Catalog, st: State): (r: State)
    requires Inv(cat, st)
    ensures Inv(cat, r)
    ensures r.shown == st.shown && r.course == st.course
    ensures st.shown != [] ==> r.index == if st.index == 0 then 0 else st.index - 1
  {
    if |st.shown| == 0 then st
    else
      var i := if st.index == 0 then 0 else st.index - 1;
      st.(index := i, video := st.shown[i].video)
  }

  function NextShown(cat: Catalog, st: State): (r: State)
    requires Inv(cat, st)
    ensures Inv(cat, r)
    ensures r.shown == st.shown && r.course == st.course
    ensures st.shown != [] ==> r.index == if st.index + 1 < |st.shown| then st.index + 1 else |st.shown| - 1
  {
    if |st.shown| == 0 then st
    else
      var i := if st.index + 1 < |st.shown| then st.index + 1 else |st.shown| - 1;
      st.(index := i, video := st.shown[i].video)
  }

  /** For a course in the table the corrected buttons are the buttons as written. */
  lemma ShownStepsAgreeOnKnownCourses(cat: Catalog, st: State)
    requires Inv(cat, st) && st.course in cat
    ensures PrevShown(cat, st) == Prev(cat, st)
    ensures NextShown(cat, st) == Next(cat, st)
  {
  }

  /** With the corrected buttons the fallback list can be walked like any
      other: next from a freshly opened unknown course reaches module two. */
  lemma ShownStepsWalkFallback(cat: Catalog, name: string)
    requires WellFormed(cat) && name !in cat && |cat[FullStack]| > 1
    ensures var st := NextShown(cat, OpenCourse(cat, name));
            st.index == 1 && st.video == cat[FullStack][1].video
  {
  }
}
