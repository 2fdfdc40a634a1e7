/**
 * The `notifications` table: the unread query and the mark-as-read update.
 */
module Inbox {
  import opened Tables

  /** `getUnreadNotifications(u)`: u's notifications whose isRead is false, in table order. */
  function UnreadNotifications(ns: seq<Notification>, u: int): (r: seq<Notification>)
    ensures |r| <= |ns|
    ensures forall x :: x in r <==> x in ns && x.userId == u && !x.isRead
  {
    if ns == [] then []
    else
      var last := ns[|ns| - 1];
      UnreadNotifications(ns[..|ns| - 1], u) + (if last.userId == u && !last.isRead then [last] else [])
  }

  /**
   * A row appended to the table shows up once, at the end of its own user's unread list,
   * exactly when it is unread, and no other user's list changes. With the empty table
   * giving no rows, this fixes the result's number and order. `createNotification`
   * appends an unread row.
   */
  lemma UnreadAfterCreate(ns: seq<Notification>, n: Notification, v: int)
    ensures UnreadNotifications(ns + [n], v)
      == UnreadNotifications(ns, v) + (if n.userId == v && !n.isRead then [n] else [])
  {
    assert (ns + [n])[..|ns|] == ns;
  }

  function MarkRow(n: Notification, id: int): Notification {
    if n.id == id then n.(isRead := true) else n
  }

  /** `UPDATE notifications SET isRead = true WHERE id = i`. */
  function MarkRead(ns: seq<Notification>, id: int): (r: seq<Notification>)
    ensures |r| == |ns|
  {
    seq(|ns|, i requires 0 <= i < |ns| => MarkRow(ns[i], id))
  }

  /**
   * Marking changes only the read flag: a notification is read afterwards exactly when
   * it was read already or has that id, and nothing else about any row changes.
   */
  lemma MarkReadFlags(ns: seq<Notification>, id: int)
    ensures forall k :: 0 <= k < |ns| ==> MarkRead(ns, id)[k].(isRead := ns[k].isRead) == ns[k]
    ensures forall k :: 0 <= k < |ns| ==> (MarkRead(ns, id)[k].isRead <==> ns[k].isRead || ns[k].id == id)
  {
  }

  /**
   * After marking notification `id` read, a user's unread list is what it was minus
   * that notification: nothing else appears or disappears.
   */
  lemma MarkReadRemovesExactlyOne(ns: seq<Notification>, id: int, u: int)
    ensures forall x :: x in UnreadNotifications(MarkRead(ns, id), u) <==>
      x in UnreadNotifications(ns, u) && x.id != id
  {
    var after := MarkRead(ns, id);
    forall x ensures x in after && !x.isRead <==> x in ns && !x.isRead && x.id != id {
      if x in after && !x.isRead {
        var k :| 0 <= k < |after| && after[k] == x;
        assert ns[k] == x;
      }
      if x in ns && !x.isRead && x.id != id {
        var k :| 0 <= k < |ns| && ns[k] == x;
        assert after[k] == x;
      }
    }
  }
}
