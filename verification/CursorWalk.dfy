/** A walk through a list as a client makes it: every page is asked for with the text of the
    cursor that the page before it gave. */
module CursorWalk {
  import opened Wrappers
  import opened Digits
  import opened Pagination
  import Cursors
  import Timestamps
  import Uuids

  /** The civil time under which the database driver hands over a moment. */
  type Clock = int -> Timestamps.Timestamp

  /** Every visible date can be handed over, and names the moment it stands for. */
  ghost predicate Renders(clock: Clock, visible: set<PageKey>) {
    forall k :: k in visible ==> Timestamps.Valid(clock(k.date)) && Timestamps.Instant(clock(k.date)) == k.date
  }

  /** The position a parsed cursor stands for. */
  function Position(parsed: Option<(Timestamps.Timestamp, Uuids.Uuid)>): Option<PageKey> {
    if parsed.Some? then Some(PageKey(Timestamps.Instant(parsed.value.0), parsed.value.1)) else None
  }

  predicate Nonces(aead: Cursors.Aead, nonces: seq<Cursors.Bytes>) {
    forall i :: 0 <= i < |nonces| ==> |nonces[i]| == aead.nonceSize && AreDigits(256, nonces[i])
  }

  ghost function EncodeKey(aead: Cursors.Aead, nonce: Cursors.Bytes, clock: Clock, k: PageKey): string
    requires Cursors.Lawful(aead) && |nonce| == aead.nonceSize && AreDigits(256, nonce)
  {
    Cursors.Encode(aead, nonce, clock(k.date), Uuids.ToString(k.id))
  }

  /** Follow the cursor texts from page to page. */
  ghost function FollowText(
    aead: Cursors.Aead, clock: Clock, reqs: seq<Request>, nonces: seq<Cursors.Bytes>, cursor: string)
    : Result<Walk, Cursors.CursorError>
    requires Cursors.Lawful(aead) && Requests(reqs) && |nonces| == |reqs| && Nonces(aead, nonces)
    decreases |reqs|
  {
    if reqs == [] then Success(Walk([], false)) else
      match Cursors.Parse(aead, cursor)
      case Failure(e) => Failure(e)
      case Success(parsed) =>
        var p := PageOf(reqs[0].visible, Position(parsed), reqs[0].limit);
        if p.next.None? then Success(Walk(p.items, true)) else
          match FollowText(aead, clock, reqs[1..], nonces[1..], EncodeKey(aead, nonces[0], clock, p.next.value))
          case Failure(e) => Failure(e)
          case Success(w) => Success(Walk(p.items + w.items, w.complete))
  }

  /** The text of a visible key's cursor leads back to that key. */
  lemma KeyThroughText(aead: Cursors.Aead, nonce: Cursors.Bytes, clock: Clock, k: PageKey, visible: set<PageKey>)
    requires Cursors.Lawful(aead) && |nonce| == aead.nonceSize && AreDigits(256, nonce)
    requires Renders(clock, visible) && k in visible
    ensures var parsed := Cursors.Parse(aead, EncodeKey(aead, nonce, clock, k));
            parsed.Success? && Position(parsed.value) == Some(k)
  {
    Cursors.RoundTrip(aead, nonce, clock(k.date), k.id);
    hide Cursors.Parse, Cursors.Encode, Timestamps.Instant, Timestamps.Valid;
  }

  lemma {:induction false} FollowTextIsFollow(
    aead: Cursors.Aead, clock: Clock, reqs: seq<Request>, nonces: seq<Cursors.Bytes>,
    cursor: string, at: Option<PageKey>)
    requires Cursors.Lawful(aead) && Requests(reqs) && |nonces| == |reqs| && Nonces(aead, nonces)
    requires forall i :: 0 <= i < |reqs| ==> Renders(clock, reqs[i].visible)
    requires Cursors.Parse(aead, cursor).Success? && Position(Cursors.Parse(aead, cursor).value) == at
    ensures FollowText(aead, clock, reqs, nonces, cursor) == Success(Follow(reqs, at))
    decreases |reqs|
  {
    hide Cursors.Parse, Cursors.Lawful, Renders, EncodeKey, Position;
    if reqs != [] {
      var p := PageOf(reqs[0].visible, at, reqs[0].limit);
      if p.next.Some? {
        PageSplits(reqs[0].visible, at, reqs[0].limit);
        assert p.next.value in p.items;
        KeyThroughText(aead, nonces[0], clock, p.next.value, reqs[0].visible);
        var text := EncodeKey(aead, nonces[0], clock, p.next.value);
        FollowTextIsFollow(aead, clock, reqs[1..], nonces[1..], text, p.next);
      }
    }
  }

  /** A walk through cursor texts, from the empty one on, is the walk through keys: no
      cursor is refused, and the same keys are listed, whatever the table does meanwhile. */
  lemma TextWalkIsWalk(aead: Cursors.Aead, clock: Clock, reqs: seq<Request>, nonces: seq<Cursors.Bytes>)
    requires Cursors.Lawful(aead) && Requests(reqs) && |nonces| == |reqs| && Nonces(aead, nonces)
    requires forall i :: 0 <= i < |reqs| ==> Renders(clock, reqs[i].visible)
    ensures FollowText(aead, clock, reqs, nonces, "") == Success(Follow(reqs, None))
  {
    assert Cursors.Parse(aead, "") == Success(None);
    FollowTextIsFollow(aead, clock, reqs, nonces, "", None);
  }
}
