/**
 * The quiz notification store: one notification at a time, replaced whole by `showNotification` and
 * reset by `clearNotification`.  A callback is a function value in the program; here it is
 * a handle naming it, and `None` stands for `null`.
 */
module NotificationStore {
  import opened Wrappers

  datatype Notification = Notification(kind: string, message: string, callback: Option<nat>)

  /** The initial and the cleared state: no type, no message, no callback */
  const Cleared: Notification := Notification("", "", None)

  /** The state `showNotification` writes: exactly the given type, message and callback, whatever was there */
  function Shown(kind: string, message: string, callback: Option<nat>): (r: Notification)
    ensures r.kind == kind && r.message == message && r.callback == callback
    ensures r == Cleared <==> kind == "" && message == "" && callback.None?
  {
    Notification(kind, message, callback)
  }

  /** The state `clearNotification` writes, whatever was there before */
  function Clear(n: Notification): (r: Notification)
    ensures r == Cleared && r.callback.None?
  {
    Cleared
  }

  /** Clearing is idempotent, and a show followed by a clear is the initial state again. */
  lemma ClearIdempotent(n: Notification, kind: string, message: string, callback: Option<nat>)
    ensures Clear(Clear(n)) == Clear(n)
    ensures Clear(Shown(kind, message, callback)) == Cleared
  {
  }

  /** Two shows agree exactly when their content does: nothing of an earlier show survives a later one */
  lemma ShowForgetsPrevious(k1: string, m1: string, c1: Option<nat>, k2: string, m2: string, c2: Option<nat>)
    ensures Shown(k1, m1, c1) == Shown(k2, m2, c2) <==> k1 == k2 && m1 == m2 && c1 == c2
  {
  }

  class Notifier {
    var state: Notification

    constructor ()
      ensures state == Cleared
    {
      state := Cleared;
    }

    /** `showNotification({type, message, callbackFn = null})` */
    method ShowNotification(kind: string, message: string, callback: Option<nat> := None)
      modifies this
      ensures state == Shown(kind, message, callback)
    {
      state := Notification(kind, message, callback);
    }

    /** `clearNotification()` */
    method ClearNotification()
      modifies this
      ensures state == Clear(old(state))
    {
      state := Cleared;
    }
  }
}
