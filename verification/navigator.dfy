/** The back stack of the older Gooey navigator widget
    (widgets/src/navigator.rs). Every change of the shown location sends the
    component a `ContentChanged` event, which the model counts; building the
    shown widget and the bar is left out. */
module GooeyNavigator {
  import opened Common

  /** `NavigatorBehavior`: the back stack, whose last location is shown. */
  class NavigatorBehavior<Loc(==)> {
    var backStack: seq<Loc>
    var contentChanges: nat

    /** There is always a location to show. */
    ghost predicate Valid()
      reads this
    {
      |backStack| >= 1
    }

    /** `NavigatorBehavior::default`: only the default location. */
    constructor(root: Loc)
      ensures Valid() && backStack == [root] && contentChanges == 0
    {
      backStack := [root];
      contentChanges := 0;
    }

    /** The shown location, the top of the back stack. */
    function Location(): Loc
      requires Valid()
      reads this
    {
      backStack[|backStack| - 1]
    }

    /** `update_bar`'s back button: the title of the location below the top,
        when there is one. */
    function BackButton(title: Loc -> string): (r: Option<string>)
      requires Valid()
      reads this
      ensures r.Some? <==> |backStack| > 1
      ensures r.Some? ==> r.value == title(backStack[|backStack| - 2])
    {
      if |backStack| > 1 then Some(title(backStack[|backStack| - 2])) else None
    }

    /** `push`: the location goes on top and is shown. */
    method Push(location: Loc)
      requires Valid()
      modifies this
      ensures Valid() && backStack == old(backStack) + [location] && Location() == location
      ensures contentChanges == old(contentChanges) + 1
    {
      backStack := backStack + [location];
      contentChanges := contentChanges + 1;
    }

    /** `swap_to`: the top location is replaced, the depth kept. */
    method SwapTo(location: Loc)
      requires Valid()
      modifies this
      ensures Valid() && |backStack| == |old(backStack)| && Location() == location
      ensures backStack[..|backStack| - 1] == old(backStack)[..|old(backStack)| - 1]
      ensures contentChanges == old(contentChanges) + 1
    {
      backStack := backStack[..|backStack| - 1] + [location];
      contentChanges := contentChanges + 1;
    }

    /** `pop_to_root`: only the first location is kept. */
    method PopToRoot()
      requires Valid()
      modifies this
      ensures Valid() && backStack == [old(backStack)[0]]
      ensures contentChanges == old(contentChanges) + 1
    {
      backStack := backStack[..1];
      contentChanges := contentChanges + 1;
    }

    /** `pop`: with a single location nothing happens; otherwise the top is
        removed and returned, and the one below it is shown. */
    method Pop() returns (location: Option<Loc>)
      requires Valid()
      modifies this
      ensures Valid()
      ensures |old(backStack)| <= 1 ==> location.None? && backStack == old(backStack) && contentChanges == old(contentChanges)
      ensures |old(backStack)| > 1 ==>
        && location == Some(old(backStack)[|old(backStack)| - 1])
        && backStack == old(backStack)[..|old(backStack)| - 1]
        && contentChanges == old(contentChanges) + 1
    {
      if |backStack| <= 1 {
        location := None;
      } else {
        location := Some(backStack[|backStack| - 1]);
        backStack := backStack[..|backStack| - 1];
        contentChanges := contentChanges + 1;
      }
    }
  }

  /** The pages of the widget explorer's navigator demonstration. */
  datatype Page = MainMenu | NavigatorPage(level: nat)

  /** The demonstration's walk: from the main menu, open the demo and push
      two levels, replace the top, then go home. A push followed by a pop
      gives back the pushed page. */
  method ExplorerWalk() returns (pushed: seq<Page>, swapped: seq<Page>, home: seq<Page>, popped: Option<Page>)
    ensures pushed == [MainMenu, NavigatorPage(0), NavigatorPage(1), NavigatorPage(2)]
    ensures swapped == [MainMenu, NavigatorPage(0), NavigatorPage(1), NavigatorPage(3)]
    ensures home == [MainMenu]
    ensures popped == None
  {
    var nav := new NavigatorBehavior<Page>(MainMenu);
    nav.Push(NavigatorPage(0));
    nav.Push(NavigatorPage(1));
    nav.Push(NavigatorPage(2));
    pushed := nav.backStack;
    nav.SwapTo(NavigatorPage(3));
    swapped := nav.backStack;
    nav.PopToRoot();
    home := nav.backStack;
    popped := nav.Pop();
  }

  /** Pushing and then popping returns the pushed location and restores the
      stack, whatever it held. */
  method PushThenPop<Loc(==)>(nav: NavigatorBehavior<Loc>, location: Loc) returns (popped: Option<Loc>)
    requires nav.Valid()
    modifies nav
    ensures popped == Some(location) && nav.backStack == old(nav.backStack)
  {
    nav.Push(location);
    popped := nav.Pop();
  }
}
