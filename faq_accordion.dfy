/**
  The FAQ accordion of main.js: what `fetchFaqPosts` puts on the page once
  the post list has arrived (or failed to), and the `toggleaccordion`
  update that opens one entry and closes all others. The fetched list is
  an input; the network, the JSON decoding and the console are not
  modelled.
 */
module FaqAccordion {

  /** A post of the fetched list, as far as the page uses it. */
  datatype Post = Post(title: string, body: string)

  /** How the fetch ended: with a parsed list of posts, or rejected. */
  datatype FetchOutcome = Loaded(posts: seq<Post>) | Failed

  /** The accordion button of one entry: its id, whether it has the
      "active" class, its `aria-expanded` value, its `aria-controls` value
      and the title it shows. */
  datatype Trigger = Trigger(id: string, active: bool, expanded: bool, controls: string, title: string)

  /** The panel of one entry: its id, its `aria-labelledby` value, whether
      it is hidden and the body text it shows. */
  datatype Panel = Panel(id: string, labelledBy: string, hidden: bool, body: string)

  const MaxShown: nat := 5
  const MsgLoadFailed := "Failed to load posts."

  // ---------------------------------------------------------------------
  // Element ids
  // ---------------------------------------------------------------------

  function Digit(d: nat): char
    requires d < 10
  {
    ('0' as int + d) as char
  }

  /** The decimal form of n, as a template literal writes a number. */
  function DecimalString(n: nat): (s: string)
    ensures |s| >= 1
    ensures n < 10 <==> |s| == 1
    decreases n
  {
    if n < 10 then [Digit(n)] else DecimalString(n / 10) + [Digit(n % 10)]
  }

  /** Different numbers have different decimal forms. */
  lemma {:induction false} DecimalStringInjective(a: nat, b: nat)
    requires DecimalString(a) == DecimalString(b)
    ensures a == b
    decreases a
  {
    var s := DecimalString(a);
    if a >= 10 && b >= 10 {
      assert Digit(a % 10) == s[|s| - 1] == Digit(b % 10);
      assert DecimalString(a / 10) == s[..|s| - 1] == DecimalString(b / 10);
      DecimalStringInjective(a / 10, b / 10);
    }
  }

  function TriggerId(k: nat): string {
    "accordion-trigger-" + DecimalString(k)
  }

  function PanelId(k: nat): string {
    "accordion-panel-" + DecimalString(k)
  }

  /** Entry ids are unique: two entries never share a trigger id or a
      panel id. */
  lemma EntryIdsDistinct(j: nat, k: nat)
    requires j != k
    ensures TriggerId(j) != TriggerId(k) && PanelId(j) != PanelId(k)
  {
    if DecimalString(j) == DecimalString(k) {
      DecimalStringInjective(j, k);
    }
    assert TriggerId(j)[18..] == DecimalString(j) && TriggerId(k)[18..] == DecimalString(k);
    assert PanelId(j)[16..] == DecimalString(j) && PanelId(k)[16..] == DecimalString(k);
  }

  // ---------------------------------------------------------------------
  // One rendered entry, and the accordion update
  // ---------------------------------------------------------------------

  /** The trigger the render loop builds for post p at position k: only
      the first entry starts out active and expanded. */
  function RenderTrigger(k: nat, p: Post): Trigger {
    Trigger(TriggerId(k), k == 0, k == 0, PanelId(k), p.title)
  }

  /** The panel the render loop builds for post p at position k: only the
      first entry starts out visible. */
  function RenderPanel(k: nat, p: Post): Panel {
    Panel(PanelId(k), TriggerId(k), k != 0, p.body)
  }

  /** Trigger k controls panel k and panel k is labelled by trigger k, and
      no other entry's elements carry those ids. */
  lemma RenderedEntriesCrossReference(j: nat, k: nat, p: Post, q: Post)
    ensures RenderTrigger(k, p).controls == RenderPanel(k, q).id
    ensures RenderPanel(k, q).labelledBy == RenderTrigger(k, p).id
    ensures j != k ==> RenderTrigger(j, p).controls != RenderPanel(k, q).id
    ensures j != k ==> RenderPanel(j, q).labelledBy != RenderTrigger(k, p).id
  {
    if j != k {
      EntryIdsDistinct(j, k);
    }
  }

  /** The panels after `toggleaccordion(index)`: panel `index` is shown,
      every other one hidden, nothing else about them changes. */
  function ShowOnly(ps: seq<Panel>, index: int): (r: seq<Panel>)
    ensures |r| == |ps|
    ensures forall k | 0 <= k < |r| :: r[k].hidden == (k != index)
    ensures forall k | 0 <= k < |r| :: r[k] == ps[k].(hidden := r[k].hidden)
  {
    seq(|ps|, k requires 0 <= k < |ps| => ps[k].(hidden := k != index))
  }

  /** The triggers after `toggleaccordion(index)`: trigger `index` is
      expanded and active, every other one is neither. */
  function ExpandOnly(ts: seq<Trigger>, index: int): (r: seq<Trigger>)
    ensures |r| == |ts|
    ensures forall k | 0 <= k < |r| :: r[k].expanded == r[k].active == (k == index)
    ensures forall k | 0 <= k < |r| :: r[k] == ts[k].(expanded := r[k].expanded, active := r[k].active)
  {
    seq(|ts|, k requires 0 <= k < |ts| => ts[k].(expanded := k == index, active := k == index))
  }

  /** Toggling the entry that is already open keeps it open: the update is
      idempotent. */
  lemma ToggleIdempotent(ps: seq<Panel>, ts: seq<Trigger>, index: int)
    ensures ShowOnly(ShowOnly(ps, index), index) == ShowOnly(ps, index)
    ensures ExpandOnly(ExpandOnly(ts, index), index) == ExpandOnly(ts, index)
  {
  }

  /** Only the last toggle matters: toggling i and then j is toggling j. */
  lemma LastToggleWins(ps: seq<Panel>, ts: seq<Trigger>, i: int, j: int)
    ensures ShowOnly(ShowOnly(ps, i), j) == ShowOnly(ps, j)
    ensures ExpandOnly(ExpandOnly(ts, i), j) == ExpandOnly(ts, j)
  {
  }

  /** The entries the render loop builds for `shown`, position by position. */
  function RenderTriggers(shown: seq<Post>): (r: seq<Trigger>)
    ensures |r| == |shown|
  {
    seq(|shown|, k requires 0 <= k < |shown| => RenderTrigger(k, shown[k]))
  }

  function RenderPanels(shown: seq<Post>): (r: seq<Panel>)
    ensures |r| == |shown|
  {
    seq(|shown|, k requires 0 <= k < |shown| => RenderPanel(k, shown[k]))
  }

  /** Freshly rendered, the accordion is in the state `toggleaccordion(0)`
      leaves: only entry 0 is open. */
  lemma RenderedStartsWithFirstOpen(shown: seq<Post>)
    ensures ShowOnly(RenderPanels(shown), 0) == RenderPanels(shown)
    ensures ExpandOnly(RenderTriggers(shown), 0) == RenderTriggers(shown)
  {
  }

  /** How many of n fetched posts the render loop shows. */
  function ShownCount(n: nat): (c: nat)
    ensures c <= n && c <= MaxShown
    ensures c == n || c == MaxShown
  {
    if n <= MaxShown then n else MaxShown
  }

  /** The FAQ part of the page: the accordion's triggers and panels in
      document order, the loading element and the "no FAQs" container. */
  class FaqPage {
    var triggers: seq<Trigger>
    var panels: seq<Panel>
    var loadingVisible: bool
    var loadingText: string
    var noFaqVisible: bool

    ghost predicate Valid()
      reads this
    {
      |triggers| == |panels|
    }

    /** The page as served: the loading message shows, nothing is rendered. */
    constructor (loadingText: string)
      ensures Valid() && triggers == [] && panels == []
      ensures loadingVisible && this.loadingText == loadingText && !noFaqVisible
    {
      triggers := [];
      panels := [];
      loadingVisible := true;
      this.loadingText := loadingText;
      noFaqVisible := false;
    }

    /** The continuation of `fetchFaqPosts`. A list hides the loading
        message and either shows the "no FAQs" container (empty list) or
        appends one entry per post for the first five posts, in order. A
        failure hides the loading element and sets its text. */
    method OnFetch(outcome: FetchOutcome)
      requires Valid()
      modifies this`triggers, this`panels, this`loadingVisible, this`loadingText, this`noFaqVisible
      ensures Valid() && !loadingVisible
      ensures outcome.Failed? ==>
        loadingText == MsgLoadFailed && triggers == old(triggers) && panels == old(panels)
        && noFaqVisible == old(noFaqVisible)
      ensures outcome.Loaded? && outcome.posts == [] ==>
        noFaqVisible && triggers == old(triggers) && panels == old(panels) && loadingText == old(loadingText)
      ensures outcome.Loaded? && outcome.posts != [] ==>
        var shown := outcome.posts[..ShownCount(|outcome.posts|)];
        && triggers == old(triggers) + RenderTriggers(shown)
        && panels == old(panels) + RenderPanels(shown)
        && noFaqVisible == old(noFaqVisible) && loadingText == old(loadingText)
    {
      loadingVisible := false;
      if outcome.Failed? {
        loadingText := MsgLoadFailed;
        return;
      }
      var posts := outcome.posts;
      if |posts| == 0 {
        noFaqVisible := true;
        return;
      }
      var shown := posts[..ShownCount(|posts|)];
      var k := 0;
      while k < |shown|
        invariant 0 <= k <= |shown|
        invariant triggers == old(triggers) + RenderTriggers(shown[..k])
        invariant panels == old(panels) + RenderPanels(shown[..k])
        invariant !loadingVisible && noFaqVisible == old(noFaqVisible) && loadingText == old(loadingText)
      {
        triggers := triggers + [RenderTrigger(k, shown[k])];
        panels := panels + [RenderPanel(k, shown[k])];
        assert RenderTriggers(shown[..k + 1]) == RenderTriggers(shown[..k]) + [RenderTrigger(k, shown[k])];
        assert RenderPanels(shown[..k + 1]) == RenderPanels(shown[..k]) + [RenderPanel(k, shown[k])];
        k := k + 1;
      }
      assert shown[..k] == shown;
    }

    /** `toggleaccordion(index)`: walks the panels in order, showing the
        one at `index` and hiding the rest, and marks the trigger at the
        same position expanded and active exactly when its panel is shown. */
    method ToggleAccordion(index: int)
      requires Valid()
      modifies this`panels, this`triggers
      ensures Valid()
      ensures panels == ShowOnly(old(panels), index)
      ensures triggers == ExpandOnly(old(triggers), index)
    {
      var idx := 0;
      while idx < |panels|
        invariant 0 <= idx <= |panels| && Valid()
        invariant |panels| == |old(panels)|
        invariant forall k | 0 <= k < idx :: panels[k] == ShowOnly(old(panels), index)[k]
        invariant forall k | 0 <= k < idx :: triggers[k] == ExpandOnly(old(triggers), index)[k]
        invariant forall k | idx <= k < |panels| :: panels[k] == old(panels)[k] && triggers[k] == old(triggers)[k]
      {
        var isSelected := idx == index;
        panels := panels[idx := panels[idx].(hidden := !isSelected)];
        triggers := triggers[idx := triggers[idx].(expanded := isSelected, active := isSelected)];
        idx := idx + 1;
      }
    }
  }

  /** After rendering a non-empty list and toggling entry i of it, entry i
      is the only open one. */
  lemma ToggleAfterRender(posts: seq<Post>, i: nat)
    requires i < |posts|
    ensures forall k | 0 <= k < |posts| ::
      !ShowOnly(RenderPanels(posts), i)[k].hidden <==> k == i
    ensures forall k | 0 <= k < |posts| ::
      ExpandOnly(RenderTriggers(posts), i)[k].expanded <==> k == i
  {
  }
}
