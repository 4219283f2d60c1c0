// The voting wizard of web/static/vote.js and the request it sends, against the
// checks CastBallot makes for the same ballot form.
module Wizard {
  import opened Prelude
  import opened Database
  import opened Ballots
  import Numbers
  import Results

  /** One page of the ballot form the server sent. */
  datatype Page = Page(role: Id, max: int, candidates: set<Id>)

  /** The module variables of the script, and the flag of the next button. */
  datatype Screen = Screen(step: int, picks: map<Id, set<Id>>, nextEnabled: bool)

  /** What the page lets a member do; `step` equal to the number of pages is the review. */
  datatype Event = Pick(candidate: Id, checked: bool) | Next | Back | Edit

  function Chosen(picks: map<Id, set<Id>>, page: Page): set<Id> {
    if page.role in picks then picks[page.role] else {}
  }

  /** Checkboxes when a page allows several picks, radio buttons when it does not. */
  function Toggled(page: Page, chosen: set<Id>, candidate: Id, checked: bool): set<Id> {
    if page.max > 1 then
      if !checked then chosen - {candidate} else if |chosen| >= page.max then chosen else chosen + {candidate}
    else {candidate}
  }

  /** The control is on the screen and not disabled. */
  predicate Offered(pages: seq<Page>, s: Screen, e: Event) {
    match e
    case Pick(c, _) => 0 <= s.step < |pages| && c in pages[s.step].candidates
    case Next => 0 <= s.step < |pages| && s.nextEnabled
    case Back => 0 < s.step < |pages|
    case Edit => s.step == |pages|
  }

  /** Showing a step: a section's button is enabled when something is chosen on it. */
  function Show(pages: seq<Page>, step: int, picks: map<Id, set<Id>>): Screen {
    Screen(step, picks, 0 <= step < |pages| && Chosen(picks, pages[step]) != {})
  }

  function After(pages: seq<Page>, s: Screen, e: Event): Screen
    requires Offered(pages, s, e)
  {
    match e
    case Pick(c, checked) =>
      var page := pages[s.step];
      Show(pages, s.step, s.picks[page.role := Toggled(page, Chosen(s.picks, page), c, checked)])
    case Next => Show(pages, s.step + 1, s.picks)
    case Back => Show(pages, s.step - 1, s.picks)
    case Edit => Show(pages, |pages| - 1, s.picks)
  }

  /** A form the wizard can show: a page per role, each allowing at least one pick. */
  ghost predicate IsForm(pages: seq<Page>) {
    && pages != [] && (forall k :: 0 <= k < |pages| ==> pages[k].max >= 1)
    && forall j, k :: 0 <= j < k < |pages| ==> pages[j].role != pages[k].role
  }

  predicate Fits(page: Page, chosen: set<Id>) {
    chosen <= page.candidates && |chosen| <= page.max
  }

  /** Pages before the current step are filled, and no page exceeds its allowance. */
  ghost predicate InStep(pages: seq<Page>, s: Screen) {
    && 0 <= s.step <= |pages|
    && (forall k :: 0 <= k < s.step ==> Chosen(s.picks, pages[k]) != {})
    && (forall k :: 0 <= k < |pages| ==> Fits(pages[k], Chosen(s.picks, pages[k])))
    && (s.step < |pages| ==> (s.nextEnabled <==> Chosen(s.picks, pages[s.step]) != {}))
  }

  lemma ToggledFits(page: Page, chosen: set<Id>, candidate: Id, checked: bool)
    requires page.max >= 1 && Fits(page, chosen) && candidate in page.candidates
    ensures Fits(page, Toggled(page, chosen, candidate, checked))
  {
    Results.SubsetFits(chosen - {candidate}, chosen);
  }

  /**
   * What a change of one input does to the choices of its page. A checkbox that is
   * cleared takes its candidate away; one that is set adds it while the page allows
   * more picks; otherwise all stays. A radio button leaves its candidate alone.
   */
  ghost predicate IsChange(page: Page, was: set<Id>, now: set<Id>, candidate: Id, checked: bool) {
    && (page.max > 1 ==> forall c :: c != candidate ==> (c in now <==> c in was))
    && (page.max > 1 && !checked ==> candidate !in now)
    && (page.max > 1 && checked && |was| < page.max ==> candidate in now)
    && (page.max > 1 && checked && |was| >= page.max ==> now == was)
    && (page.max <= 1 ==> forall c :: c in now <==> c == candidate)
  }

  /** A pick changes the choices of the page on the screen in this way, and those of no other page. */
  lemma PickChangesItsPage(pages: seq<Page>, s: Screen, candidate: Id, checked: bool)
    requires IsForm(pages) && Offered(pages, s, Pick(candidate, checked))
    ensures var (page, after) := (pages[s.step], After(pages, s, Pick(candidate, checked)));
      && IsChange(page, Chosen(s.picks, page), Chosen(after.picks, page), candidate, checked)
      && after.step == s.step && (after.nextEnabled <==> Chosen(after.picks, page) != {})
      && forall k :: 0 <= k < |pages| && k != s.step ==> Chosen(after.picks, pages[k]) == Chosen(s.picks, pages[k])
  {
    var page := pages[s.step];
    assert forall k :: 0 <= k < |pages| && k != s.step ==> pages[k].role != page.role;
  }

  lemma EventKeepsStep(pages: seq<Page>, s: Screen, e: Event)
    requires IsForm(pages) && InStep(pages, s) && Offered(pages, s, e)
    ensures InStep(pages, After(pages, s, e))
  {
    if e.Pick? {
      var page := pages[s.step];
      ToggledFits(page, Chosen(s.picks, page), e.candidate, e.checked);
      var after := After(pages, s, e);
      hide Toggled, Fits;
      forall k | 0 <= k < |pages| && k != s.step ensures Chosen(after.picks, pages[k]) == Chosen(s.picks, pages[k]) {
        assert pages[k].role != page.role;
      }
    }
  }

  /** Screens one after the other, each event offered on the screen before it. */
  ghost predicate IsVisit(pages: seq<Page>, screens: seq<Screen>, events: seq<Event>) {
    && |screens| == |events| + 1 && screens[0] == Show(pages, 0, map[])
    && forall k :: 0 <= k < |events| ==>
         Offered(pages, screens[k], events[k]) && screens[k + 1] == After(pages, screens[k], events[k])
  }

  /** In every sequence of picks and moves the pages before the current one are filled, within their allowances. */
  lemma {:induction false} EveryScreenIsInStep(pages: seq<Page>, screens: seq<Screen>, events: seq<Event>, k: nat)
    requires IsForm(pages) && IsVisit(pages, screens, events) && k < |screens|
    ensures InStep(pages, screens[k])
  {
    hide InStep, After, Offered;
    if k == 0 {
      FirstScreen(pages);
    } else {
      EveryScreenIsInStep(pages, screens, events, k - 1);
      assert Offered(pages, screens[k - 1], events[k - 1]);
      assert screens[k - 1 + 1] == After(pages, screens[k - 1], events[k - 1]);
      EventKeepsStep(pages, screens[k - 1], events[k - 1]);
    }
  }

  lemma FirstScreen(pages: seq<Page>)
    requires IsForm(pages)
    ensures InStep(pages, Show(pages, 0, map[]))
  {
  }

  // ------------------------------------------------------------ the script

  type Body = map<string, seq<Id>>

  /** The request: a numeral per role, and the picks of the role in the order they were made. */
  ghost predicate IsBody(pages: seq<Page>, picks: map<Id, set<Id>>, body: Body)
    requires forall k :: 0 <= k < |pages| ==> pages[k].role >= 0
  {
    && (forall key :: key in body ==> exists k :: 0 <= k < |pages| && Numbers.Decimal(pages[k].role) == key)
    && (forall k :: 0 <= k < |pages| ==>
          Numbers.Decimal(pages[k].role) in body
          && Enumerates(body[Numbers.Decimal(pages[k].role)], Chosen(picks, pages[k])))
  }

  class Wizard {
    const pages: seq<Page>
    var step: int
    var picks: map<Id, set<Id>>
    var nextEnabled: bool

    ghost function Now(): Screen
      reads this
    {
      Screen(step, picks, nextEnabled)
    }

    ghost predicate Valid()
      reads this
    {
      IsForm(pages) && InStep(pages, Now())
    }

    /** load: the form has arrived and has sections. */
    constructor (form: seq<Page>)
      requires IsForm(form)
      ensures Valid() && pages == form && Now() == Show(form, 0, map[])
    {
      pages, step, picks, nextEnabled := form, 0, map[], false;
    }

    /** selectionsFor creates the set of a role the first time it is asked for. */
    method SelectionsFor(page: Page) returns (chosen: set<Id>)
      modifies this`picks
      ensures chosen == Chosen(old(picks), page) && picks == old(picks)[page.role := chosen]
    {
      if page.role !in picks { picks := picks[page.role := {}]; }
      chosen := picks[page.role];
      assert picks == picks[page.role := chosen];
    }

    method RenderSection()
      requires 0 <= step < |pages|
      modifies this`picks, this`nextEnabled
      ensures nextEnabled <==> Chosen(old(picks), pages[step]) != {}
      ensures picks == old(picks)[pages[step].role := Chosen(old(picks), pages[step])]
    {
      var chosen := SelectionsFor(pages[step]);
      nextEnabled := |chosen| != 0;
    }

    static lemma PickedScreen(pages: seq<Page>, s: Screen, candidate: Id, checked: bool)
      requires Offered(pages, s, Pick(candidate, checked)) && IsForm(pages) && InStep(pages, s)
      ensures var page := pages[s.step];
        var chosen := Toggled(page, Chosen(s.picks, page), candidate, checked);
        && page.max >= 1 && (s.nextEnabled <==> Chosen(s.picks, page) != {})
        && After(pages, s, Pick(candidate, checked)) == Screen(s.step, s.picks[page.role := chosen], chosen != {})
    {
      hide Toggled;
    }

    /** The change handler of a candidate's input, and updateFooter. */
    method Choose(candidate: Id, checked: bool)
      requires Valid() && Offered(pages, Now(), Pick(candidate, checked))
      modifies this
      ensures Valid() && Now() == After(pages, old(Now()), Pick(candidate, checked))
      ensures step == old(step)
      ensures IsChange(pages[step], Chosen(old(picks), pages[step]), Chosen(picks, pages[step]), candidate, checked)
      ensures forall k :: 0 <= k < |pages| && k != step ==> Chosen(picks, pages[k]) == Chosen(old(picks), pages[k])
    {
      hide InStep, IsForm, After, Show, Toggled, Chosen, IsChange;
      EventKeepsStep(pages, Now(), Pick(candidate, checked));
      PickChangesItsPage(pages, Now(), candidate, checked);
      var section := pages[step];
      PickedScreen(pages, Now(), candidate, checked);
      hide Offered;
      var chosen := SelectionsFor(section);
      var toast: bool;
      chosen, toast := Toggle(section, chosen, candidate, checked);
      if toast { return; } // the box is unchecked again
      picks := picks[section.role := chosen];
      assert picks == old(picks)[section.role := chosen];
      nextEnabled := |chosen| != 0;
    }

    /** The branches of the handler; a toast is shown when the page is full. */
    static method Toggle(section: Page, chosen: set<Id>, candidate: Id, checked: bool)
      returns (after: set<Id>, toast: bool)
      requires section.max >= 1
      ensures after == Toggled(section, chosen, candidate, checked)
      ensures toast ==> after == chosen && chosen != {}
      ensures IsChange(section, chosen, after, candidate, checked)
    {
      if section.max > 1 {
        if checked {
          if |chosen| >= section.max { return chosen, true; }
          return chosen + {candidate}, false;
        } else {
          return chosen - {candidate}, false;
        }
      } else {
        after := {};
        after := after + {candidate};
        return after, false;
      }
    }

    /** The same picks, whether or not empty sets have been created on the way. */
    ghost predicate SamePicks(other: map<Id, set<Id>>)
      reads this
    {
      forall k :: 0 <= k < |pages| ==> Chosen(picks, pages[k]) == Chosen(other, pages[k])
    }

    method Next()
      requires Valid() && Offered(pages, Now(), Event.Next)
      modifies this
      ensures Valid() && step == old(step) + 1 && SamePicks(old(picks))
    {
      EventKeepsStep(pages, Now(), Event.Next);
      step := step + 1;
      if step < |pages| { RenderSection(); }
    }

    method Back()
      requires Valid() && Offered(pages, Now(), Event.Back)
      modifies this
      ensures Valid() && step == old(step) - 1 && SamePicks(old(picks))
    {
      EventKeepsStep(pages, Now(), Event.Back);
      step := step - 1;
      RenderSection();
    }

    method Edit()
      requires Valid() && Offered(pages, Now(), Event.Edit)
      modifies this
      ensures Valid() && step == |pages| - 1 && SamePicks(old(picks))
    {
      EventKeepsStep(pages, Now(), Event.Edit);
      step := |pages| - 1;
      RenderSection();
    }

    /** send builds the request from every page. */
    method Send() returns (body: Body)
      requires Valid() && step == |pages| && forall k :: 0 <= k < |pages| ==> pages[k].role >= 0
      modifies this`picks
      ensures Valid() && SamePicks(old(picks)) && IsBody(pages, picks, body)
    {
      hide Numbers.Decimal, Enumerates;
      ghost var was := picks;
      body := map[];
      for i := 0 to |pages|
        invariant SamePicks(was)
        invariant IsBody(pages[..i], was, body)
      {
        var chosen := SelectionsFor(pages[i]);
        var list := Results.Rows(chosen);
        ghost var before := body;
        body := body[Numbers.Decimal(pages[i].role) := list];
        OnePageMore(pages, was, i, before, list);
      }
      assert pages[..|pages|] == pages;
      assert IsBody(pages, picks, body);
    }
  }

  lemma BodyGrows(less: seq<Page>, page: Page, picks: map<Id, set<Id>>, body: Body, list: seq<Id>)
    requires (forall k :: 0 <= k < |less| ==> less[k].role >= 0) && page.role >= 0
    requires IsBody(less, picks, body) && Enumerates(list, Chosen(picks, page))
    requires forall k :: 0 <= k < |less| ==> Numbers.Decimal(less[k].role) != Numbers.Decimal(page.role)
    ensures IsBody(less + [page], picks, body[Numbers.Decimal(page.role) := list])
  {
    hide Numbers.Decimal, Enumerates, Chosen;
    var key, more := Numbers.Decimal(page.role), less + [page];
    var after := body[key := list];
    forall x | x in after ensures exists k :: 0 <= k < |more| && Numbers.Decimal(more[k].role) == x {
      if x == key {
        assert Numbers.Decimal(more[|less|].role) == x;
      } else {
        var k :| 0 <= k < |less| && Numbers.Decimal(less[k].role) == x;
        assert more[k] == less[k];
      }
    }
    forall k | 0 <= k < |more|
      ensures Numbers.Decimal(more[k].role) in after
        && Enumerates(after[Numbers.Decimal(more[k].role)], Chosen(picks, more[k]))
    {
      if k < |less| { assert more[k] == less[k] && Numbers.Decimal(less[k].role) in body; }
    }
  }

  lemma OnePageMore(pages: seq<Page>, picks: map<Id, set<Id>>, i: nat, body: Body, list: seq<Id>)
    requires IsForm(pages) && i < |pages| && forall k :: 0 <= k < |pages| ==> pages[k].role >= 0
    requires IsBody(pages[..i], picks, body) && Enumerates(list, Chosen(picks, pages[i]))
    ensures IsBody(pages[..i + 1], picks, body[Numbers.Decimal(pages[i].role) := list])
  {
    var key := Numbers.Decimal(pages[i].role);
    var less, more := pages[..i], pages[..i + 1];
    assert more == less + [pages[i]];
    hide Numbers.Decimal, Enumerates, Chosen;
    forall k | 0 <= k < i ensures Numbers.Decimal(pages[k].role) != key {
      NumeralsDiffer(pages[k].role, pages[i].role);
    }
    BodyGrows(less, pages[i], picks, body, list);
  }

  lemma NumeralsDiffer(a: nat, b: nat)
    requires a != b
    ensures Numbers.Decimal(a) != Numbers.Decimal(b)
  {
    Numbers.DecimalIsPlain(a);
    Numbers.DecimalIsPlain(b);
  }

  // ------------------------------------------------------------ the server

  /** What handleCastBallot makes of a request whose keys are all numbers. */
  ghost predicate IsDecoded(body: Body, sel: Selections) {
    && (forall key :: key in body ==> Numbers.ParseInt(key).Some? && Numbers.ParseInt(key).value in sel)
    && (forall role :: role in sel ==>
          exists key :: key in body && Numbers.ParseInt(key) == Some(role) && body[key] == sel[role])
  }

  /** The loop over the keys of the request; None refuses the request. */
  method DecodeSelections(body: Body) returns (sel: Option<Selections>)
    ensures sel.Some? ==> IsDecoded(body, sel.value)
    ensures sel.None? <==> exists key :: key in body && Numbers.ParseInt(key).None?
  {
    var out: Selections := map[];
    var left := body.Keys;
    while left != {}
      invariant left <= body.Keys
      invariant forall key :: key in body && key !in left ==>
        Numbers.ParseInt(key).Some? && Numbers.ParseInt(key).value in out
      invariant forall role :: role in out ==>
        exists key :: key in body && Numbers.ParseInt(key) == Some(role) && body[key] == out[role]
      decreases left
    {
      assert (forall key :: key !in left) ==> left == {};
      var key :| key in left;
      var role := Numbers.ParseIntLoop(key);
      if role.None? { return None; }
      out := out[role.value := body[key]];
      left := left - {key};
    }
    return Some(out);
  }

  /** The pages are the ballot form of this database. */
  ghost predicate FormOf(db: Db, pages: seq<Page>) {
    && |pages| == |Order(db)|
    && forall k :: 0 <= k < |pages| ==>
         Order(db)[k] in SectionIds(db)
         && pages[k] == Page(Order(db)[k], SectionOf(db, Order(db)[k]).allowed, SectionOf(db, Order(db)[k]).valid)
  }

  /** handleBallotForm: the pages a member is shown, only while voting is open. */
  method BallotForm(db: Db, user: Id) returns (form: Option<seq<Page>>, hasVoted: bool)
    requires user in db.users
    ensures form.Some? <==> db.users[user].status == Active && db.settings.voting == Open
    ensures form.Some? ==> FormOf(db, form.value) && (hasVoted <==> HasVoted(db, user))
  {
    if db.users[user].status != Active { return None, false; }
    if db.settings.voting != Open { return None, false; }
    hasVoted := HasVoted(db, user);
    var pages: seq<Page> := [];
    if db.settings.mode == SinglePage {
      pages := [Page(0, SingleSelections(db.settings), Entries(db, 0))];
    } else {
      var roles := Results.OrderedRoles(db.roles);
      InOrderEnumerates(db.roles, db.roles.Keys);
      for i := 0 to |roles|
        invariant |pages| == i
        invariant forall k :: 0 <= k < i ==>
          pages[k] == Page(roles[k], SectionOf(db, roles[k]).allowed, SectionOf(db, roles[k]).valid)
      {
        pages := pages + [Page(roles[i], db.roles[roles[i]].selections, Entries(db, roles[i]))];
      }
    }
    return Some(pages), hasVoted;
  }

  /** Role ids a script can hold exactly. */
  const MAX_SAFE := 0x1F_FFFF_FFFF_FFFF

  ghost predicate SafeRoles(pages: seq<Page>) {
    forall k :: 0 <= k < |pages| ==> 0 <= pages[k].role <= MAX_SAFE
  }

  lemma NumeralIsRead(role: nat)
    requires role <= MAX_SAFE
    ensures Numbers.ParseInt(Numbers.Decimal(role)) == Some(role)
  {
    Numbers.PrintedNumberReadsBackIff(role);
  }

  /** The picks of one page arrive as they were sent. */
  lemma PageArrives(pages: seq<Page>, picks: map<Id, set<Id>>, body: Body, sel: Selections, k: nat)
    requires SafeRoles(pages) && IsBody(pages, picks, body) && IsDecoded(body, sel) && k < |pages|
    ensures pages[k].role in sel && Enumerates(sel[pages[k].role], Chosen(picks, pages[k]))
  {
    var role := pages[k].role;
    var numeral := Numbers.Decimal(role);
    NumeralIsRead(role);
    assert numeral in body && role in sel;
    var key :| key in body && Numbers.ParseInt(key) == Some(role) && body[key] == sel[role];
    var j :| 0 <= j < |pages| && Numbers.Decimal(pages[j].role) == key;
    NumeralIsRead(pages[j].role);
    hide Enumerates, Numbers.ParseInt;
    assert key == numeral;
  }

  lemma ListFills(page: Page, chosen: set<Id>, list: seq<Id>)
    requires Enumerates(list, chosen) && Fits(page, chosen) && chosen != {}
    ensures SectionFilled(Section(page.max, page.candidates), list)
  {
    EnumerationLength(list, chosen);
  }

  /**
   * Whatever a member does in the wizard, what it sends from the review fills every
   * section of the ballot form it was given, as the server reads it; so with voting
   * open CastBallot accepts the ballot of any active member who has not voted.
   */
  lemma SentBallotIsAccepted(db: Db, user: Id, pages: seq<Page>, screens: seq<Screen>, events: seq<Event>,
                             body: Body, sel: Selections)
    requires FormOf(db, pages) && IsForm(pages) && SafeRoles(pages) && IsVisit(pages, screens, events)
    requires screens[|events|].step == |pages| && IsBody(pages, screens[|events|].picks, body) && IsDecoded(body, sel)
    ensures BallotFilled(db, sel)
    ensures MayVote(db, user) ==> Accepts(db, user, sel)
  {
    var s := screens[|events|];
    EveryScreenIsInStep(pages, screens, events, |events|);
    OrderEnumeratesSections(db);
    hide IsVisit, IsBody, IsDecoded, MayVote, Order;
    forall r | r in SectionIds(db) ensures SectionFilled(SectionOf(db, r), PicksIn(sel, r)) {
      var k :| 0 <= k < |Order(db)| && Order(db)[k] == r;
      PageArrives(pages, s.picks, body, sel, k);
      ListFills(pages[k], Chosen(s.picks, pages[k]), sel[r]);
    }
  }

  /** Every ballot form with at least one section is one the wizard can show. */
  lemma FormsCanBeShown(db: Db, pages: seq<Page>)
    requires FormOf(db, pages) && RolesAllow(db) && pages != []
    ensures IsForm(pages)
  {
    OrderEnumeratesSections(db);
    forall k | 0 <= k < |pages| ensures pages[k].max >= 1 {
      assert pages[k].max == SectionOf(db, Order(db)[k]).allowed;
    }
  }
}
