/** $_SESSION: the per-visitor key/value store every page reads and writes in place. */
module Sessions {
  import opened Php

  /** $_SESSION['last_order'] as checkout.php stores it; its 'date' entry (a clock reading) is left out. */
  datatype LastOrder = LastOrder(id: int, total: int, items: nat)

  /** The session keys the modelled pages use; None is an unset key. */
  datatype SessionState = SessionState(
    userId: Option<int>, username: Option<string>, roleId: Option<int>, userName: Option<string>,
    cart: Option<seq<int>>, lastOrder: Option<LastOrder>,
    errorMessage: Option<string>, successMessage: Option<string>, infoMessage: Option<string>,
    error: Option<string>, success: Option<string>, csrfToken: Option<string>)

  const NoSession := SessionState(None, None, None, None, None, None, None, None, None, None, None, None)

  class Session {
    var userId: Option<int>
    var username: Option<string>
    var roleId: Option<int>
    var userName: Option<string>
    var cart: Option<seq<int>>
    var lastOrder: Option<LastOrder>
    var errorMessage: Option<string>
    var successMessage: Option<string>
    var infoMessage: Option<string>
    var error: Option<string>
    var success: Option<string>
    var csrfToken: Option<string>

    function State(): SessionState
      reads this
    {
      SessionState(userId, username, roleId, userName, cart, lastOrder,
                   errorMessage, successMessage, infoMessage, error, success, csrfToken)
    }

    constructor (st: SessionState)
      ensures State() == st
    {
      userId, username, roleId, userName := st.userId, st.username, st.roleId, st.userName;
      cart, lastOrder := st.cart, st.lastOrder;
      errorMessage, successMessage, infoMessage := st.errorMessage, st.successMessage, st.infoMessage;
      error, success, csrfToken := st.error, st.success, st.csrfToken;
    }

    /** session_destroy(): every key is gone. */
    method Destroy()
      modifies this
      ensures State() == NoSession
    {
      userId, username, roleId, userName := None, None, None, None;
      cart, lastOrder := None, None;
      errorMessage, successMessage, infoMessage := None, None, None;
      error, success, csrfToken := None, None, None;
    }
  }
}
