/**
 The unsaved-changes guard over the browser's session history.

 The history is the sequence of its entries' URLs and the position in it, moved by
 `pushState` and by traversals as in section 7.2.5 of the HTML Living Standard: a push
 drops the entries ahead, and a traversal past either end does nothing. A popstate handler
 runs before the next user action. All entries are taken to be of this document.
 */
module NavigationGuard {

  datatype Browser = Browser(entries: seq<string>, index: nat)

  datatype Pending = NoDialog | LinkDialog(href: string) | HistoryDialog

  /** The guard: history, whether its listeners are installed, the leaving flag, the open dialog. */
  datatype Guard = Guard(browser: Browser, armed: bool, leaving: bool, pending: Pending)

  datatype Event = Arm | Disarm | Back | Forward | Click(href: string) | Cancel | Confirm

  predicate WellFormed(b: Browser) {
    b.index < |b.entries|
  }

  function Location(b: Browser): string
    requires WellFormed(b)
  {
    b.entries[b.index]
  }

  function Pushed(b: Browser, url: string): (r: Browser)
    requires WellFormed(b)
    ensures WellFormed(r)
  {
    Browser(b.entries[..b.index + 1] + [url], b.index + 1)
  }

  predicate CanGo(b: Browser, delta: int) {
    0 <= b.index + delta < |b.entries|
  }

  function Go(b: Browser, delta: int): (r: Browser)
    requires WellFormed(b)
    ensures WellFormed(r)
  {
    if CanGo(b, delta) then b.(index := b.index + delta) else b
  }

  function OnPopState(g: Guard): (r: Guard)
    requires WellFormed(g.browser)
    ensures WellFormed(r.browser)
  {
    if !g.armed || g.leaving then g
    else g.(browser := Pushed(g.browser, Location(g.browser)), pending := HistoryDialog)
  }

  /** A traversal that reaches an entry fires popstate there. */
  function Traverse(g: Guard, delta: int): (r: Guard)
    requires WellFormed(g.browser)
    ensures WellFormed(r.browser)
  {
    if CanGo(g.browser, delta) then OnPopState(g.(browser := Go(g.browser, delta))) else g
  }

  function Step(g: Guard, e: Event): (r: Guard)
    requires WellFormed(g.browser)
    ensures WellFormed(r.browser)
  {
    match e
    case Arm => Guard(Pushed(g.browser, Location(g.browser)), true, false, g.pending)
    case Disarm => g.(armed := false)
    case Back => Traverse(g, -1)
    case Forward => Traverse(g, 1)
    case Click(href) => if g.armed then g.(pending := LinkDialog(href)) else g.(browser := Pushed(g.browser, href))
    case Cancel => g.(pending := NoDialog)
    case Confirm =>
      match g.pending
      case NoDialog => g
      case HistoryDialog => Traverse(g.(leaving := true, pending := NoDialog), -2)
      case LinkDialog(href) => g.(browser := Pushed(g.browser, href), pending := NoDialog)
  }

  function Run(g: Guard, events: seq<Event>): (r: Guard)
    requires WellFormed(g.browser)
    ensures WellFormed(r.browser)
    decreases |events|
  {
    if events == [] then g else Run(Step(g, events[0]), events[1..])
  }

  // ---- The hook ----

  class GuardHook {
    var entries: seq<string>
    var index: nat
    var armed: bool
    var leaving: bool
    var pending: Pending

    function State(): Guard
      reads this
    {
      Guard(Browser(entries, index), armed, leaving, pending)
    }

    predicate Valid()
      reads this
    {
      index < |entries|
    }

    constructor (entries: seq<string>, index: nat)
      requires index < |entries|
      ensures Valid() && State() == Guard(Browser(entries, index), false, false, NoDialog)
    {
      this.entries, this.index := entries, index;
      armed, leaving, pending := false, false, NoDialog;
    }

    method PushState(url: string)
      requires Valid()
      modifies this`entries, this`index
      ensures Valid() && State().browser == Pushed(old(State()).browser, url)
    {
      entries := entries[..index + 1] + [url];
      index := index + 1;
    }

    /** The effect that runs when the page becomes dirty. */
    method ArmEffect()
      requires Valid()
      modifies this
      ensures Valid() && State() == Step(old(State()), Arm)
      ensures forall b, k: nat :: WellFormed(b) && old(State()).browser == Sentinels(b, k) ==>
        State().browser == Sentinels(b, k + 1) && !CanGo(State().browser, 1)
    {
      ghost var before := State().browser;
      leaving := false;
      PushState(entries[index]);
      armed := true;
      forall b, k: nat | WellFormed(b) && before == Sentinels(b, k) ensures State().browser == Sentinels(b, k + 1) {
        ArmStacks(b, k);
      }
    }

    /** Its clean-up. */
    method DisarmEffect()
      requires Valid()
      modifies this`armed
      ensures Valid() && State() == Step(old(State()), Disarm)
    {
      armed := false;
    }

    method PopState()
      requires Valid()
      modifies this
      ensures Valid() && State() == OnPopState(old(State()))
    {
      if !armed || leaving {
        return;
      }
      PushState(entries[index]);
      pending := HistoryDialog;
    }

    /** `history.go`, with the popstate event it leads to. */
    method Go(delta: int)
      requires Valid()
      modifies this
      ensures Valid() && State() == Traverse(old(State()), delta)
    {
      if 0 <= index + delta < |entries| {
        index := index + delta;
        PopState();
      }
    }

    method OnClick(href: string)
      requires Valid()
      modifies this
      ensures Valid() && State() == Step(old(State()), Click(href))
    {
      if armed {
        pending := LinkDialog(href);
      } else {
        PushState(href);
      }
    }

    method ConfirmDialog()
      requires Valid()
      modifies this
      ensures Valid() && State() == Step(old(State()), Confirm)
      ensures pending == NoDialog
      ensures old(pending) == NoDialog ==> State() == old(State())
      ensures old(pending).HistoryDialog? ==> forall b, k: nat :: WellFormed(b) && old(State()).browser == Sentinels(b, k) ==>
        entries == old(entries) && leaving && index == if b.index + k >= 2 then b.index + k - 2 else old(index)
      ensures old(pending).LinkDialog? ==>
        Location(State().browser) == old(pending).href && !CanGo(State().browser, 1)
        && entries[..index] == old(entries[..index + 1])
    {
      match pending {
        case NoDialog =>
        case HistoryDialog =>
          leaving := true;
          pending := NoDialog;
          Go(-2);
        case LinkDialog(href) =>
          pending := NoDialog;
          PushState(href);
      }
    }

    /** One event, as the browser or the dialog delivers it. */
    method Handle(e: Event)
      requires Valid()
      modifies this
      ensures Valid() && State() == Step(old(State()), e)
    {
      match e {
        case Arm => ArmEffect();
        case Disarm => DisarmEffect();
        case Back => Go(-1);
        case Forward => Go(1);
        case Click(href) => OnClick(href);
        case Cancel => CancelDialog();
        case Confirm => ConfirmDialog();
      }
    }

    /**
     A whole visit. If the user stays, the history ends as it was on the page, with one sentinel
     for each time the page became dirty.
     */
    method Visit(events: seq<Event>)
      requires Valid()
      modifies this
      ensures Valid() && State() == Run(old(State()), events)
      ensures !old(armed) && !old(leaving) && Staying(events, false) && Arms(events) >= 1 ==>
        State().browser == Sentinels(old(State()).browser, Arms(events))
    {
      ghost var start := State();
      for i := 0 to |events|
        invariant Valid()
        invariant Run(State(), events[i..]) == Run(start, events)
      {
        assert events[i..][0] == events[i] && events[i..][1..] == events[i + 1..];
        Handle(events[i]);
      }
      assert events[|events|..] == [];
      if !start.armed && !start.leaving && Staying(events, false) && Arms(events) >= 1 {
        StayingFromPage(start.browser, start.pending, events);
      }
    }

    method CancelDialog()
      requires Valid()
      modifies this`pending
      ensures Valid() && State() == Step(old(State()), Cancel)
    {
      pending := NoDialog;
    }
  }

  // ---- What the guard does to the history ----

  function Copies(url: string, k: nat): (r: seq<string>)
    ensures |r| == k && forall i :: 0 <= i < k ==> r[i] == url
  {
    if k == 0 then [] else Copies(url, k - 1) + [url]
  }

  /** The history `b` with `k` sentinels of its page on top and nothing ahead. */
  function Sentinels(b: Browser, k: nat): (r: Browser)
    requires WellFormed(b)
    ensures WellFormed(r)
  {
    Browser(b.entries[..b.index + 1] + Copies(Location(b), k), b.index + k)
  }

  /** Another arming stacks another sentinel. */
  lemma ArmStacks(b: Browser, k: nat)
    requires WellFormed(b)
    ensures var s := Sentinels(b, k); Pushed(s, Location(s)) == Sentinels(b, k + 1)
  {
    var s := Sentinels(b, k);
    assert s.entries[..s.index + 1] == s.entries;
    assert Location(s) == Location(b);
  }

  /** Popping a sentinel and pushing it again restores the history exactly. */
  lemma PopThenPush(b: Browser, k: nat)
    requires WellFormed(b) && k >= 1
    ensures var popped := Go(Sentinels(b, k), -1); Pushed(popped, Location(popped)) == Sentinels(b, k)
  {
    var s := Sentinels(b, k);
    var popped := Go(s, -1);
    assert Location(popped) == Location(b);
    assert s.entries == s.entries[..s.index] + [s.entries[s.index]];
  }

  function Arms(events: seq<Event>): nat {
    if events == [] then 0 else (if events[0] == Arm then 1 else 0) + Arms(events[1..])
  }

  /** The user stays: nothing is confirmed, and all moves are made while the guard is armed. */
  predicate Staying(events: seq<Event>, armed: bool) {
    events == [] ||
    (match events[0]
     case Arm => !armed && Staying(events[1..], true)
     case Disarm => armed && Staying(events[1..], false)
     case Confirm => false
     case Cancel => Staying(events[1..], armed)
     case _ => armed && Staying(events[1..], armed))
  }

  /**
   Whatever a staying user presses, the history is the one before the first arming with one
   sentinel per arming: its length is fixed between armings, nothing lies ahead, and no entry
   at or below the guarded page has changed.
   */
  lemma {:induction false} StayingKeepsHistory(g: Guard, b: Browser, k: nat, events: seq<Event>)
    requires WellFormed(b) && g.browser == Sentinels(b, k) && !g.leaving
    requires g.armed ==> k >= 1
    requires Staying(events, g.armed)
    ensures var r := Run(g, events);
      && r.browser == Sentinels(b, k + Arms(events))
      && !r.leaving && (r.armed ==> k + Arms(events) >= 1)
    decreases |events|
  {
    if events != [] {
      var next := Step(g, events[0]);
      match events[0] {
        case Arm =>
          ArmStacks(b, k);
          StayingKeepsHistory(next, b, k + 1, events[1..]);
        case Back =>
          PopThenPush(b, k);
          StayingKeepsHistory(next, b, k, events[1..]);
        case Confirm =>
        case _ =>
          StayingKeepsHistory(next, b, k, events[1..]);
      }
    }
  }

  /** From any page: armings and any staying moves leave the guarded page under its sentinels. */
  lemma StayingFromPage(b: Browser, pending: Pending, events: seq<Event>)
    requires WellFormed(b) && Staying(events, false) && Arms(events) >= 1
    ensures var r := Run(Guard(b, false, false, pending), events).browser;
      && r == Sentinels(b, Arms(events))
      && r.index == |r.entries| - 1
      && r.entries[r.index] == r.entries[r.index - 1] == Location(b)
      && r.entries[..b.index + 1] == b.entries[..b.index + 1]
  {
    FirstArm(b, pending, events);
    hide Run, Staying;
    var r := Sentinels(b, Arms(events));
    assert r.entries[..b.index + 1] == b.entries[..b.index + 1];
    assert r.entries[b.index] == Location(b);
  }

  /** Until the first arming the history is untouched, entries ahead included. */
  lemma {:induction false} FirstArm(b: Browser, pending: Pending, events: seq<Event>)
    requires WellFormed(b) && Staying(events, false) && Arms(events) >= 1
    ensures Run(Guard(b, false, false, pending), events).browser == Sentinels(b, Arms(events))
    decreases |events|
  {
    var g := Guard(b, false, false, pending);
    if events[0] == Arm {
      assert Copies(Location(b), 1) == [Location(b)] by {
        assert Copies(Location(b), 0) == [];
      }
      StayingKeepsHistory(Step(g, Arm), b, 1, events[1..]);
    } else {
      FirstArm(b, Step(g, events[0]).pending, events[1..]);
    }
  }

  /**
   Back and then Discard at sentinel depth `k` goes to `k - 1` entries above the entry before
   the guarded page, and reaches that entry exactly when there was a single arming. With
   nothing before the guarded page a single-depth exit goes nowhere.
   */
  lemma BackThenConfirm(g: Guard, b: Browser, k: nat)
    requires WellFormed(b) && k >= 1 && g.browser == Sentinels(b, k) && g.armed && !g.leaving
    ensures var r := Run(g, [Back, Confirm]);
      && r.browser.entries == g.browser.entries && r.pending == NoDialog && r.leaving
      && r.browser.index == (if b.index + k >= 2 then b.index + k - 2 else g.browser.index)
      && (b.index >= 1 ==> (r.browser.index == b.index - 1 <==> k == 1))
      && (b.index >= 1 && k == 1 ==> Location(r.browser) == b.entries[b.index - 1])
      && (k >= 2 ==> Location(r.browser) == Location(b))
  {
    PopThenPush(b, k);
    assert [Back, Confirm][1..] == [Confirm];
    assert [Confirm][1..] == [];
    var popped := Step(g, Back);
    assert popped == g.(pending := HistoryDialog);
    assert Run(g, [Back, Confirm]) == Step(popped, Confirm);
  }

  lemma TwoSteps(g: Guard, a: Event, b: Event)
    requires WellFormed(g.browser)
    ensures Run(g, [a, b]) == Step(Step(g, a), b)
  {
    var first := Step(g, a);
    assert [a, b][1..] == [b] && [b][1..] == [];
    assert Run(first, [b]) == Run(Step(first, b), []);
  }

  /** A clicked link is opened after Discard, on top of the page and its sentinels; Cancel forgets it. */
  lemma ClickThenAnswer(g: Guard, b: Browser, k: nat, h: string)
    requires WellFormed(b) && g.browser == Sentinels(b, k) && g.armed && !g.leaving
    ensures var r := Run(g, [Click(h), Confirm]);
      && Location(r.browser) == h && r.pending == NoDialog && !r.leaving
      && r.browser.entries[..|r.browser.entries| - 1] == g.browser.entries
      && r.browser.index == |r.browser.entries| - 1
    ensures Run(g, [Click(h), Cancel]) == Guard(g.browser, true, false, NoDialog)
  {
    TwoSteps(g, Click(h), Confirm);
    TwoSteps(g, Click(h), Cancel);
    assert Step(g, Click(h)).browser == g.browser;
    assert g.browser.entries[..g.browser.index + 1] == g.browser.entries;
  }

  /** Going back is undone and asked about; Cancel leaves the page exactly as it was, Forward can do nothing. */
  lemma BackThenAnswer(g: Guard, b: Browser, k: nat)
    requires WellFormed(b) && k >= 1 && g.browser == Sentinels(b, k) && g.armed && !g.leaving
    ensures Step(g, Back) == Guard(g.browser, true, false, HistoryDialog)
    ensures Run(g, [Back, Cancel]) == Guard(g.browser, true, false, NoDialog)
    ensures Step(g, Forward) == g
  {
    PopThenPush(b, k);
    TwoSteps(g, Back, Cancel);
  }

  /** Nothing is asked while the page is clean: links open, and Back and Forward move by one entry. */
  lemma CleanPageIsFree(g: Guard, h: string)
    requires WellFormed(g.browser) && !g.armed
    ensures var r := Step(g, Click(h));
      && Location(r.browser) == h && r.browser.index == g.browser.index + 1 == |r.browser.entries| - 1
      && r.browser.entries[..g.browser.index + 1] == g.browser.entries[..g.browser.index + 1] && r.pending == g.pending
    ensures Step(g, Back) == g.(browser := g.browser.(index := if g.browser.index > 0 then g.browser.index - 1 else 0))
    ensures Step(g, Forward)
         == g.(browser := g.browser.(index := if g.browser.index + 1 < |g.browser.entries| then g.browser.index + 1 else g.browser.index))
  {
  }

  /** Arming asks again, even after an earlier departure had silenced the guard. */
  lemma RearmedAsks(g: Guard)
    requires WellFormed(g.browser)
    ensures var armed := Step(g, Arm);
      && armed.armed && !armed.leaving && Location(armed.browser) == Location(g.browser)
      && Step(armed, Back) == armed.(pending := HistoryDialog)
  {
    var armed := Step(g, Arm);
    assert Copies(Location(g.browser), 1) == [Location(g.browser)] by {
      assert Copies(Location(g.browser), 0) == [];
    }
    assert armed.browser == Sentinels(g.browser, 1);
    PopThenPush(g.browser, 1);
  }

  function Backs(n: nat): seq<Event> {
    seq(n, _ => Back)
  }

  /** After the page is clean again every sentinel costs one press of Back that seems to do nothing. */
  lemma {:induction false} SentinelsOutliveTheGuard(g: Guard, b: Browser, k: nat, presses: nat)
    requires WellFormed(b) && g.browser == Sentinels(b, k) && !g.armed && presses <= b.index + k
    ensures var r := Run(g, Backs(presses)).browser;
      && r.entries == g.browser.entries && r.index == b.index + k - presses
      && (presses <= k ==> Location(r) == Location(b))
      && (presses > k ==> Location(r) == b.entries[b.index + k - presses])
  {
    BacksMove(g, presses);
  }

  lemma {:induction false} BacksMove(g: Guard, presses: nat)
    requires WellFormed(g.browser) && !g.armed && presses <= g.browser.index
    ensures Run(g, Backs(presses)) == g.(browser := g.browser.(index := g.browser.index - presses))
    decreases presses
  {
    if presses > 0 {
      assert Backs(presses)[1..] == Backs(presses - 1);
      BacksMove(Step(g, Back), presses - 1);
    }
  }

  // ---- Whether leaving is always asked for ----

  /** Still at one of the entries of the guarded page. */
  predicate OnPage(b: Browser, k: nat, browser: Browser)
    requires WellFormed(b)
  {
    browser.entries == Sentinels(b, k).entries && b.index <= browser.index <= b.index + k
  }

  predicate UserOnly(events: seq<Event>) {
    forall i :: 0 <= i < |events| ==> !events[i].Arm? && !events[i].Disarm?
  }

  /** The user leaves the page, if at all, by confirming a dialog. */
  predicate DeparturesAsked(g: Guard, b: Browser, k: nat, events: seq<Event>)
    requires WellFormed(g.browser) && WellFormed(b)
    decreases |events|
  {
    events == [] ||
    var next := Step(g, events[0]);
    if OnPage(b, k, next.browser) then DeparturesAsked(next, b, k, events[1..]) else events[0] == Confirm
  }

  lemma {:induction false} KeepsAsking(g: Guard, b: Browser, k: nat, events: seq<Event>)
    requires WellFormed(g.browser) && WellFormed(b) && k >= 1 && (k == 1 || b.index == 0)
    requires g.armed && UserOnly(events) && OnPage(b, k, g.browser)
    requires if g.leaving then b.index == 0 else g.browser.index == b.index + k
    ensures DeparturesAsked(g, b, k, events)
    decreases |events|
  {
    if events != [] {
      var next := Step(g, events[0]);
      assert UserOnly(events[1..]) by {
        assert forall i :: 0 <= i < |events[1..]| ==> events[1..][i] == events[i + 1];
      }
      if !g.leaving {
        assert g.browser == Sentinels(b, k);
        PopThenPush(b, k);
      }
      if OnPage(b, k, next.browser) {
        KeepsAsking(next, b, k, events[1..]);
      }
    }
  }

  /** While leaving, Back moves through the sentinels and out of the page without a dialog. */
  lemma {:induction false} BacksLeaveSilently(g: Guard, b: Browser, k: nat, j: nat)
    requires WellFormed(g.browser) && WellFormed(b) && b.index >= 1 && j <= k
    requires g.armed && g.leaving && g.browser == Browser(Sentinels(b, k).entries, b.index + j)
    ensures !DeparturesAsked(g, b, k, Backs(j + 1))
    ensures Run(g, Backs(j + 1)) == g.(browser := g.browser.(index := b.index - 1))
    decreases j
  {
    assert Backs(j + 1)[1..] == Backs(j);
    var next := Step(g, Back);
    if j > 0 {
      BacksLeaveSilently(next, b, k, j - 1);
    }
  }

  /**
   At sentinel depth two or more, Back and Discard stay on the page with the guard armed but
   silenced: as many presses of Back as the depth has more than one leave without a dialog.
   */
  lemma SilentDeparture(b: Browser, k: nat, pending: Pending)
    requires WellFormed(b) && b.index >= 1 && k >= 2
    ensures var g := Guard(Sentinels(b, k), true, false, pending);
      var events := [Back, Confirm] + Backs(k - 1);
      && !DeparturesAsked(g, b, k, events)
      && Run(g, events) == Guard(Browser(Sentinels(b, k).entries, b.index - 1), true, true, NoDialog)
  {
    var g := Guard(Sentinels(b, k), true, false, pending);
    var events := [Back, Confirm] + Backs(k - 1);
    PopThenPush(b, k);
    var asked := Step(g, Back);
    assert asked == g.(pending := HistoryDialog);
    var silenced := Step(asked, Confirm);
    assert silenced == Guard(Browser(Sentinels(b, k).entries, b.index + k - 2), true, true, NoDialog);
    assert events[1..] == [Confirm] + Backs(k - 1) && ([Confirm] + Backs(k - 1))[1..] == Backs(k - 1);
    BacksLeaveSilently(silenced, b, k, k - 2);
  }

  /**
   From an armed page with `k` sentinels, every departure in every run is confirmed in a dialog
   exactly when there is one sentinel, or nothing before the page to go back to.
   */
  lemma DeparturesAskedIff(b: Browser, k: nat, pending: Pending)
    requires WellFormed(b) && k >= 1
    ensures (forall events :: UserOnly(events) ==> DeparturesAsked(Guard(Sentinels(b, k), true, false, pending), b, k, events))
       <==> k == 1 || b.index == 0
  {
    var g := Guard(Sentinels(b, k), true, false, pending);
    if k == 1 || b.index == 0 {
      forall events | UserOnly(events) ensures DeparturesAsked(g, b, k, events) {
        KeepsAsking(g, b, k, events);
      }
    } else {
      SilentDeparture(b, k, pending);
      assert UserOnly([Back, Confirm] + Backs(k - 1));
    }
  }
}
