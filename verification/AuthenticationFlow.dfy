/**
 * The slice of the host's authentication flow that the authenticator touches: the
 * users it links, the outcomes it reports, and the flow context whose status, user
 * and authentication-session notes it sets.
 */
module AuthenticationFlow {
  import opened Wrappers

  /** A local user account, known to the flow only by its identity. */
  datatype UserModel = UserModel(id: string)

  /** The error codes the authenticator reports. */
  datatype FlowError = InternalError | UnknownUser

  /** A rendered error page: its message key and HTTP status. */
  datatype ErrorPage = ErrorPage(message: string, status: nat)

  /**
   * The terminal result of one evaluation: the attempt was inconclusive
   * (context.attempted()), one user was linked, or the flow failed with an error code
   * and, for the user-facing cases, an error page.
   */
  datatype Outcome = Inconclusive | Linked(user: UserModel) | Failed(error: FlowError, page: Option<ErrorPage>)

  /** Note set on the authentication session when a user is linked. */
  const AuthNoteKey := "POST_BROKER_LOGIN_AUTHENTICATED"

  /** Where the flow stands for this authenticator. */
  datatype FlowStatus = Undecided | WasAttempted | WasSuccessful | WasFailed(error: FlowError, page: Option<ErrorPage>)

  /** The flow context, reduced to the state the authenticator writes. */
  class AuthenticationFlowContext {
    var status: FlowStatus
    var user: Option<UserModel>
    var authNotes: map<string, string>

    constructor ()
      ensures status == Undecided && user == None && authNotes == map[]
    {
      status, user, authNotes := Undecided, None, map[];
    }

    method Attempted()
      modifies this`status
      ensures status == WasAttempted
    {
      status := WasAttempted;
    }

    method Success()
      modifies this`status
      ensures status == WasSuccessful
    {
      status := WasSuccessful;
    }

    method Failure(error: FlowError, page: Option<ErrorPage>)
      modifies this`status
      ensures status == WasFailed(error, page)
    {
      status := WasFailed(error, page);
    }

    method SetUser(u: UserModel)
      modifies this`user
      ensures user == Some(u)
    {
      user := Some(u);
    }

    method SetAuthNote(key: string, value: string)
      modifies this`authNotes
      ensures authNotes == old(authNotes)[key := value]
    {
      authNotes := authNotes[key := value];
    }

    /** The context shows outcome o, having held user0 and notes0 before: only a linked
        user is set, together with the post-broker-login note. */
    ghost predicate Reports(o: Outcome, user0: Option<UserModel>, notes0: map<string, string>)
      reads this
    {
      match o
      case Inconclusive => status == WasAttempted && user == user0 && authNotes == notes0
      case Linked(u) => status == WasSuccessful && user == Some(u) && authNotes == notes0[AuthNoteKey := "true"]
      case Failed(e, p) => status == WasFailed(e, p) && user == user0 && authNotes == notes0
    }
  }

  /** Reports an outcome on the context with the calls the authenticator makes for it. */
  method Report(context: AuthenticationFlowContext, o: Outcome)
    modifies context
    ensures context.Reports(o, old(context.user), old(context.authNotes))
  {
    match o
    case Inconclusive =>
      context.Attempted();
    case Linked(u) =>
      context.SetUser(u);
      context.SetAuthNote(AuthNoteKey, "true");
      context.Success();
    case Failed(e, p) =>
      context.Failure(e, p);
  }
}
