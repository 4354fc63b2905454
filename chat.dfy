/**
 * The read receipts of a group chat message (src/models/chat.js). `markAsRead` records that a
 * user read the message unless a receipt for the same user and the same user model exists;
 * a `GroupMessage` holds its `readBy` array and the method pushes onto it in place.
 */
module Chat {
  import opened CivilDate

  /** `userModel`: the collection the reader's id refers to. */
  datatype UserModel = StaffModel | AdminModel

  /** One `readBy` entry. User ids are object ids, compared through their string form, which
      for object ids is equality. */
  datatype Receipt = Receipt(user: nat, userModel: UserModel, readAt: Instant)

  /** `readBy.some(r => r.user.toString() === userId.toString() && r.userModel === userModel)`. */
  predicate AlreadyRead(readBy: seq<Receipt>, user: nat, model: UserModel) {
    exists i :: 0 <= i < |readBy| && readBy[i].user == user && readBy[i].userModel == model
  }

  /** The receipts after `markAsRead(user, model)` at time `now`. */
  function MarkedRead(readBy: seq<Receipt>, user: nat, model: UserModel, now: Instant): seq<Receipt> {
    if AlreadyRead(readBy, user, model) then readBy else readBy + [Receipt(user, model, now)]
  }

  class GroupMessage {
    var readBy: seq<Receipt>

    constructor ()
      ensures readBy == []
    {
      readBy := [];
    }

    /** `markAsRead(userId, userModel)`, before its `save()`; `now` is the time it runs. */
    method MarkAsRead(user: nat, model: UserModel, now: Instant)
      modifies this
      ensures readBy == MarkedRead(old(readBy), user, model, now)
    {
      var alreadyRead := false;
      var i := 0;
      while i < |readBy| && !alreadyRead
        invariant 0 <= i <= |readBy|
        invariant alreadyRead <==> exists j :: 0 <= j < i && readBy[j].user == user && readBy[j].userModel == model
      {
        if readBy[i].user == user && readBy[i].userModel == model {
          alreadyRead := true;
        }
        i := i + 1;
      }
      if !alreadyRead {
        readBy := readBy + [Receipt(user, model, now)];
      }
    }
  }

  // ---------------------------------------------------------------------------------------
  // Lemmas
  // ---------------------------------------------------------------------------------------

  /** A new reader is appended at the end; a known reader leaves the receipts as they were. */
  lemma MarkedReadCases(readBy: seq<Receipt>, user: nat, model: UserModel, now: Instant)
    ensures var r := MarkedRead(readBy, user, model, now);
      (!AlreadyRead(readBy, user, model) ==> r == readBy + [Receipt(user, model, now)])
      && (AlreadyRead(readBy, user, model) ==> r == readBy)
      && AlreadyRead(r, user, model)
  {
    if !AlreadyRead(readBy, user, model) {
      var r := MarkedRead(readBy, user, model, now);
      assert r[|readBy|] == Receipt(user, model, now);
    }
  }

  /** Marking twice, at any two times, is marking once. */
  lemma MarkedReadIdempotent(readBy: seq<Receipt>, user: nat, model: UserModel, now: Instant, later: Instant)
    ensures MarkedRead(MarkedRead(readBy, user, model, now), user, model, later) == MarkedRead(readBy, user, model, now)
  {
    MarkedReadCases(readBy, user, model, now);
  }

  /** Existing receipts are never modified and at most one is added. */
  lemma MarkedReadKeepsReceipts(readBy: seq<Receipt>, user: nat, model: UserModel, now: Instant)
    ensures var r := MarkedRead(readBy, user, model, now);
      |readBy| <= |r| <= |readBy| + 1 && r[..|readBy|] == readBy
  {
  }

  /** The same id under the other user model is a different reader: a receipt as Staff does
      not count as read for the same id as Admin, and marking one leaves the other unread. */
  lemma OtherModelIsDistinct(readBy: seq<Receipt>, user: nat, model: UserModel, other: UserModel, now: Instant)
    requires model != other
    ensures AlreadyRead(MarkedRead(readBy, user, model, now), user, other) == AlreadyRead(readBy, user, other)
    ensures !AlreadyRead(readBy, user, other) ==>
      |MarkedRead(MarkedRead(readBy, user, model, now), user, other, now)| == |MarkedRead(readBy, user, model, now)| + 1
  {
    var r := MarkedRead(readBy, user, model, now);
    if AlreadyRead(r, user, other) {
      var i :| 0 <= i < |r| && r[i].user == user && r[i].userModel == other;
      assert i < |readBy| && readBy[i] == r[i];
    }
    if AlreadyRead(readBy, user, other) {
      var i :| 0 <= i < |readBy| && readBy[i].user == user && readBy[i].userModel == other;
      assert r[i] == readBy[i];
    }
  }
}
