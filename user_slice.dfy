/** The client's session state (frontend/src/store/userSlice.ts): a record of
    five fields and the five reducers that update it in place. */
module UserSlice {
  import opened Optional

  /** The five fields at one instant, for stating how a reducer changes
      them. */
  datatype Snapshot = Snapshot(
    email: Option<string>,
    name: Option<string>,
    isAuthenticated: bool,
    isLoading: bool,
    error: Option<string>)

  /** The actions the slice exports, with their payloads. */
  datatype Action =
    | SetUserAction(userEmail: string, userName: string)
    | SetLoadingAction(loading: bool)
    | SetErrorAction(message: string)
    | ClearErrorAction
    | LogoutAction

  /** `UserState`; `null` is `None`. */
  class UserState {
    var email: Option<string>
    var name: Option<string>
    var isAuthenticated: bool
    var isLoading: bool
    var error: Option<string>

    ghost function View(): Snapshot
      reads this
    {
      Snapshot(email, name, isAuthenticated, isLoading, error)
    }

    /** Signed in exactly when both the email and the name are known. */
    predicate Valid()
      reads this
    {
      isAuthenticated <==> email.Some? && name.Some?
    }

    /** `initialState`: nobody signed in, nothing loading, no error. */
    constructor ()
      ensures View() == Snapshot(None, None, false, false, None)
      ensures Valid()
    {
      email := None;
      name := None;
      isAuthenticated := false;
      isLoading := false;
      error := None;
    }

    /** `setUser`: records who signed in and clears the error; the loading
        flag is left alone. */
    method SetUser(userEmail: string, userName: string)
      modifies this
      ensures View() == old(View()).(email := Some(userEmail), name := Some(userName), isAuthenticated := true, error := None)
      ensures Valid()
    {
      email := Some(userEmail);
      name := Some(userName);
      isAuthenticated := true;
      error := None;
    }

    /** `setLoading`: changes the loading flag only. */
    method SetLoading(loading: bool)
      modifies this
      ensures View() == old(View()).(isLoading := loading)
      ensures Valid() <==> old(Valid())
    {
      isLoading := loading;
    }

    /** `setError`: records the message and stops loading. */
    method SetError(message: string)
      modifies this
      ensures View() == old(View()).(error := Some(message), isLoading := false)
      ensures Valid() <==> old(Valid())
    {
      error := Some(message);
      isLoading := false;
    }

    /** `clearError`: changes the error only. */
    method ClearError()
      modifies this
      ensures View() == old(View()).(error := None)
      ensures Valid() <==> old(Valid())
    {
      error := None;
    }

    /** `logout`: forgets the user and the error; the loading flag is left
        alone. */
    method Logout()
      modifies this
      ensures View() == old(View()).(email := None, name := None, isAuthenticated := false, error := None)
      ensures Valid()
    {
      email := None;
      name := None;
      isAuthenticated := false;
      error := None;
    }

    /** The slice's reducer: one action, handled by its case reducer. */
    method Dispatch(action: Action)
      modifies this
      ensures match action
        case SetUserAction(e, n) =>
          View() == old(View()).(email := Some(e), name := Some(n), isAuthenticated := true, error := None)
        case SetLoadingAction(b) => View() == old(View()).(isLoading := b)
        case SetErrorAction(m) => View() == old(View()).(error := Some(m), isLoading := false)
        case ClearErrorAction => View() == old(View()).(error := None)
        case LogoutAction => View() == old(View()).(email := None, name := None, isAuthenticated := false, error := None)
      ensures action.SetUserAction? || action.LogoutAction? ==> Valid()
      ensures !(action.SetUserAction? || action.LogoutAction?) ==> (Valid() <==> old(Valid()))
      ensures old(Valid()) ==> Valid()
    {
      match action
      case SetUserAction(e, n) => SetUser(e, n);
      case SetLoadingAction(b) => SetLoading(b);
      case SetErrorAction(m) => SetError(m);
      case ClearErrorAction => ClearError();
      case LogoutAction => Logout();
    }

    /** Two `setLoading` with one payload leave what one leaves. */
    method SetLoadingTwice(loading: bool)
      modifies this
      ensures View() == old(View()).(isLoading := loading)
    {
      SetLoading(loading);
      SetLoading(loading);
    }

    /** Two `clearError` leave what one leaves. */
    method ClearErrorTwice()
      modifies this
      ensures View() == old(View()).(error := None)
    {
      ClearError();
      ClearError();
    }

    /** Two `logout` leave what one leaves. */
    method LogoutTwice()
      modifies this
      ensures View() == old(View()).(email := None, name := None, isAuthenticated := false, error := None)
    {
      Logout();
      Logout();
    }
  }

  /** The store from `initialState` after a sequence of actions: the
      invariant holds at every step. */
  method Run(actions: seq<Action>) returns (state: UserState)
    ensures fresh(state) && state.Valid()
    ensures actions == [] ==> state.View() == Snapshot(None, None, false, false, None)
    ensures actions != [] && actions[|actions| - 1].LogoutAction? ==> !state.isAuthenticated && state.email.None? && state.name.None?
    ensures actions != [] && actions[|actions| - 1].SetUserAction? ==>
      state.isAuthenticated && state.email == Some(actions[|actions| - 1].userEmail) && state.name == Some(actions[|actions| - 1].userName)
  {
    state := new UserState();
    for k := 0 to |actions|
      invariant state.Valid()
      invariant k == 0 ==> state.View() == Snapshot(None, None, false, false, None)
      invariant k > 0 && actions[k - 1].LogoutAction? ==> !state.isAuthenticated && state.email.None? && state.name.None?
      invariant k > 0 && actions[k - 1].SetUserAction? ==>
        state.isAuthenticated && state.email == Some(actions[k - 1].userEmail) && state.name == Some(actions[k - 1].userName)
    {
      state.Dispatch(actions[k]);
    }
  }

}
