/**
 * The home screen: the greeting's username, chosen when the authentication
 * state is reported, and the tab bar that switches the module screen shown
 * below it. Navigation requests are recorded as a list of routes.
 */
module Home {
  import opened Wrappers

  /** The signed-in user as the authentication service reports it; either name may be missing. */
  datatype User = User(displayName: Option<string>, email: Option<string>)

  /** A JavaScript string value used with `||`: missing and empty are both falsy. */
  predicate Truthy(s: Option<string>) {
    s.Some? && s.value != ""
  }

  /**
   * `user.displayName || user.email || 'Guest'`: the first non-empty of the
   * display name and the email, and "Guest" when both are missing or empty.
   */
  function Username(u: User): (name: string)
    ensures name != ""
    ensures Truthy(u.displayName) ==> name == u.displayName.value
    ensures !Truthy(u.displayName) && Truthy(u.email) ==> name == u.email.value
    ensures name == "Guest" <==>
      || (!Truthy(u.displayName) && !Truthy(u.email))
      || (Truthy(u.displayName) && u.displayName.value == "Guest")
      || (!Truthy(u.displayName) && Truthy(u.email) && u.email.value == "Guest")
  {
    if Truthy(u.displayName) then u.displayName.value
    else if Truthy(u.email) then u.email.value
    else "Guest"
  }

  /** The module screens a tab can show; `NoScreen` is `screens[index]` past the end (`undefined`). */
  datatype Screen = SeedsScreen | NotesScreen | NoScreen

  /** The routes the home screen navigates to. */
  datatype Route = LoginRoute | ChatRoute

  /** The four tab labels of the tab bar. */
  const Tabs: seq<string> := ["Seeds", "Notes", "Calendar", "Chat"]

  /** The screens list: only two entries. */
  const Screens: seq<Screen> := [SeedsScreen, NotesScreen]

  /** `screens[index]`, `undefined` outside the list. */
  function ScreenAt(i: int): (s: Screen)
    ensures s != NoScreen <==> 0 <= i < |Screens|
  {
    if 0 <= i < |Screens| then Screens[i] else NoScreen
  }

  /**
   * Of the four tabs only the first two show a screen, and each of those
   * shows the screen its label names; "Calendar" and "Chat" show nothing.
   */
  lemma OnlyTwoTabsHaveScreens()
    ensures |Tabs| == 4 && |Screens| == 2
    ensures forall i :: 0 <= i < |Tabs| ==> (ScreenAt(i) != NoScreen <==> i <= 1)
    ensures Tabs[0] == "Seeds" && ScreenAt(0) == SeedsScreen
    ensures Tabs[1] == "Notes" && ScreenAt(1) == NotesScreen
  {
  }

  /** The home screen's state fields (the fade animation value is left out). */
  class HomeState {
    var selectedButton: int
    var activeScreen: Screen
    var username: string
    var navigations: seq<Route>

    /** The screen shown is always the one of the highlighted tab. */
    ghost predicate Valid()
      reads this
    {
      activeScreen == ScreenAt(selectedButton)
    }

    /** The first tab is selected, the Seeds screen shown, and the username still empty. */
    constructor ()
      ensures Valid()
      ensures selectedButton == 0 && activeScreen == SeedsScreen
      ensures username == "" && navigations == []
    {
      selectedButton := 0;
      activeScreen := SeedsScreen;
      username := "";
      navigations := [];
    }

    /**
     * The `onAuthStateChanged` callback: with a user, the username fallback;
     * without one, "Guest" and a navigation to the login screen.
     */
    method OnAuthStateChanged(user: Option<User>)
      requires Valid()
      modifies this
      ensures Valid()
      ensures username == (if user.Some? then Username(user.value) else "Guest")
      ensures navigations == old(navigations) + (if user.Some? then [] else [LoginRoute])
      ensures username != ""
      ensures selectedButton == old(selectedButton) && activeScreen == old(activeScreen)
    {
      if user.Some? {
        username := Username(user.value);
      } else {
        username := "Guest";
        navigations := navigations + [LoginRoute];
      }
    }

    /**
     * `handleScreenChange(index)`: pressing the highlighted tab changes
     * nothing; another tab becomes highlighted and its screen is shown.
     */
    method HandleScreenChange(index: int)
      requires Valid()
      modifies this
      ensures Valid()
      ensures index == old(selectedButton) ==>
        selectedButton == old(selectedButton) && activeScreen == old(activeScreen)
      ensures index != old(selectedButton) ==>
        selectedButton == index && activeScreen == ScreenAt(index)
      ensures username == old(username) && navigations == old(navigations)
    {
      if index != selectedButton {
        activeScreen := ScreenAt(index);
        selectedButton := index;
      }
    }
  }
}
