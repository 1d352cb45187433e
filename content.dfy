/**
  The page-side title gatekeeper. The content script replaces the
  `document.title` accessor: reads go straight to the browser's getter, and a
  write passes through when it is the script's own (`isSettingCustomTitle`),
  is dropped while a custom title is in force (`hasCustomTitle`), and passes
  through otherwise. The `set_custom_title` handler applies a title at once
  and schedules one re-assertion 500 ms later; `remove_custom_title` restores
  the title the page had when the script started.

  Timers are not clocks here: every scheduled re-assertion waits in `pending`
  (all use the same delay, so they fire in the order they were scheduled) and
  fires when the environment calls `FireReassertion`.
 */
module Content {

  /** Which branch of the intercepted setter an assignment takes. */
  datatype SetterPath = OwnWrite | Blocked | PageWrite

  /** Everything the gatekeeper's behaviour depends on. */
  datatype GuardState = GuardState(
    isSettingCustomTitle: bool,
    hasCustomTitle: bool,
    originalTitleOnLoad: string,
    title: string,
    pending: seq<string>)

  /** Between two events the script's own-write flag is always down. */
  predicate Settled(s: GuardState) {
    !s.isSettingCustomTitle
  }

  function PathOf(s: GuardState): SetterPath {
    if s.isSettingCustomTitle then OwnWrite
    else if s.hasCustomTitle then Blocked
    else PageWrite
  }

  /** `document.title = newTitle` through the intercepted setter. */
  function Assign(s: GuardState, newTitle: string): (r: GuardState)
    ensures r.title == (if PathOf(s) == Blocked then s.title else newTitle)
    ensures r.(title := s.title) == s
  {
    match PathOf(s)
    case OwnWrite => s.(title := newTitle)
    case Blocked => s
    case PageWrite => s.(title := newTitle)
  }

  /** A write the script makes itself: raise the flag, assign, lower the flag. */
  function OwnAssign(s: GuardState, newTitle: string): (r: GuardState)
    ensures r == s.(isSettingCustomTitle := false, title := newTitle)
  {
    Assign(s.(isSettingCustomTitle := true), newTitle).(isSettingCustomTitle := false)
  }

  /** The `set_custom_title` handler. */
  function SetCustom(s: GuardState, t: string): (r: GuardState)
    ensures Settled(r) && r.hasCustomTitle && r.title == t
    ensures r.originalTitleOnLoad == s.originalTitleOnLoad
    ensures r.pending == s.pending + [t]
  {
    var s1 := s.(hasCustomTitle := true);
    OwnAssign(s1, t).(pending := s.pending + [t])
  }

  /** The 500 ms re-assertion scheduled first fires. It raises the own-write flag
      and assigns its title whether or not a custom title is still in force. */
  function Fire(s: GuardState): (r: GuardState)
    requires s.pending != []
    ensures Settled(r) && r.title == s.pending[0]
    ensures r.hasCustomTitle == s.hasCustomTitle && r.originalTitleOnLoad == s.originalTitleOnLoad
    ensures r.pending == s.pending[1..]
  {
    OwnAssign(s, s.pending[0]).(pending := s.pending[1..])
  }

  /** The `remove_custom_title` handler. */
  function RemoveCustom(s: GuardState): (r: GuardState)
    ensures Settled(r) && !r.hasCustomTitle && r.title == s.originalTitleOnLoad
    ensures r.originalTitleOnLoad == s.originalTitleOnLoad && r.pending == s.pending
  {
    OwnAssign(s.(hasCustomTitle := false), s.originalTitleOnLoad)
  }

  /** Every pending re-assertion fired, oldest first. */
  function FireAll(s: GuardState): (r: GuardState)
    ensures r.pending == []
    decreases |s.pending|
  {
    if s.pending == [] then s else FireAll(Fire(s))
  }

  /** A page write is dropped while a custom title is in force. */
  lemma PageWriteBlocked(s: GuardState, v: string)
    requires Settled(s) && s.hasCustomTitle
    ensures Assign(s, v) == s
  {
  }

  /** A page write goes through unchanged when no custom title is in force. */
  lemma PageWritePasses(s: GuardState, v: string)
    requires Settled(s) && !s.hasCustomTitle
    ensures Assign(s, v) == s.(title := v)
  {
  }

  /** The script's own write always goes through. */
  lemma OwnWritePasses(s: GuardState, v: string)
    requires s.isSettingCustomTitle
    ensures Assign(s, v) == s.(title := v)
  {
  }

  /** Once every pending re-assertion has fired, the title is the last one scheduled,
      and the flags and the load-time title are as before. */
  lemma {:induction false} FireAllShowsLast(s: GuardState)
    requires s.pending != []
    ensures FireAll(s).title == s.pending[|s.pending| - 1]
    ensures FireAll(s).hasCustomTitle == s.hasCustomTitle
    ensures FireAll(s).originalTitleOnLoad == s.originalTitleOnLoad
    ensures Settled(FireAll(s))
    decreases |s.pending|
  {
    var s' := Fire(s);
    if s'.pending != [] {
      FireAllShowsLast(s');
      assert s'.pending[|s'.pending| - 1] == s.pending[|s.pending| - 1];
    }
  }

  /** Setting the same title twice shows the same title with the same flags as setting
      it once, and so it does after all re-assertions have fired. */
  lemma {:induction false} SetCustomIdempotent(s: GuardState, t: string)
    ensures var once := SetCustom(s, t);
            var twice := SetCustom(once, t);
            && twice.(pending := []) == once.(pending := [])
            && FireAll(twice).(pending := []) == FireAll(once).(pending := [])
            && FireAll(once).title == t
  {
    var once := SetCustom(s, t);
    var twice := SetCustom(once, t);
    FireAllShowsLast(once);
    FireAllShowsLast(twice);
  }

  /** A removal that arrives before the 500 ms re-assertion fires is undone on the
      display: the timer puts the custom title back although no custom title is in
      force, and page writes then pass through again. */
  lemma StaleReassertionAfterRemove(s: GuardState, t: string, v: string)
    requires Settled(s) && s.pending == []
    ensures var removed := RemoveCustom(SetCustom(s, t));
            && removed.title == s.originalTitleOnLoad && !removed.hasCustomTitle
            && Fire(removed).title == t && !Fire(removed).hasCustomTitle
            && Assign(Fire(removed), v).title == v
  {
  }

  /** Clearing and then setting the same title shows that title again. */
  lemma ClearThenSetRestoresTitle(s: GuardState, t: string)
    requires Settled(s) && s.hasCustomTitle && s.title == t
    ensures var back := SetCustom(RemoveCustom(s), t);
            back.(pending := s.pending) == s && back.pending == s.pending + [t]
  {
  }

  /** The content script's state: the two flags, the title captured at start-up and
      the document title behind the intercepted accessor. */
  class TitleGuard {
    var isSettingCustomTitle: bool
    var hasCustomTitle: bool
    const originalTitleOnLoad: string
    var title: string
    var pending: seq<string>

    function State(): GuardState
      reads this
    {
      GuardState(isSettingCustomTitle, hasCustomTitle, originalTitleOnLoad, title, pending)
    }

    /** Script start on a page whose title is `pageTitle`. */
    constructor (pageTitle: string)
      ensures State() == GuardState(false, false, pageTitle, pageTitle, [])
    {
      isSettingCustomTitle := false;
      hasCustomTitle := false;
      originalTitleOnLoad := pageTitle;
      title := pageTitle;
      pending := [];
    }

    /** The intercepted getter: the browser's title, unchanged. */
    function GetTitle(): (t: string)
      reads this
      ensures t == State().title
    {
      title
    }

    /** The intercepted setter. */
    method SetTitle(newTitle: string) returns (path: SetterPath)
      modifies this`title
      ensures path == PathOf(old(State()))
      ensures State() == Assign(old(State()), newTitle)
    {
      if isSettingCustomTitle {
        title := newTitle;
        return OwnWrite;
      }
      if hasCustomTitle {
        return Blocked;
      }
      title := newTitle;
      return PageWrite;
    }

    /** The `set_custom_title` handler. */
    method HandleSetCustomTitle(t: string)
      modifies this
      ensures State() == SetCustom(old(State()), t)
    {
      hasCustomTitle := true;
      isSettingCustomTitle := true;
      var _ := SetTitle(t);
      isSettingCustomTitle := false;
      pending := pending + [t];
    }

    /** The oldest scheduled re-assertion fires. */
    method FireReassertion()
      requires pending != []
      modifies this
      ensures State() == Fire(old(State()))
    {
      var t := pending[0];
      pending := pending[1..];
      isSettingCustomTitle := true;
      var _ := SetTitle(t);
      isSettingCustomTitle := false;
    }

    /** The `remove_custom_title` handler. */
    method HandleRemoveCustomTitle()
      modifies this
      ensures State() == RemoveCustom(old(State()))
    {
      hasCustomTitle := false;
      isSettingCustomTitle := true;
      var _ := SetTitle(originalTitleOnLoad);
      isSettingCustomTitle := false;
    }
  }
}
