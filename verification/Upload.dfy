/**
 Publishing a tree to a remote store: conditional creation (section 13.1.2 of RFC 9110), full verification of every
 object, at most three attempts each, and the manifest last.  Requests may be lost, land late or land twice, a run
 may be cancelled or crash, and runs may follow each other.
 */
module Upload {
  import opened Bytes
  import TreePlan

  type Object = TreePlan.Object

  const MAX_ATTEMPTS := 3
  const OK_STATUS := 200

  // ----- verification of one object

  /** One piece of a response body, or the point where the transport failed. */
  datatype Piece = Data(content: bytes) | Broken

  predicate Unbroken(pieces: seq<Piece>)
  {
    forall i :: 0 <= i < |pieces| ==> pieces[i].Data?
  }

  function Joined(pieces: seq<Piece>): bytes
  {
    if pieces == [] then [] else
      Joined(pieces[..|pieces| - 1]) + if pieces[|pieces| - 1].Data? then pieces[|pieces| - 1].content else []
  }

  predicate Matches(digest: bytes -> bytes, content: bytes, o: Object)
  {
    |content| == o.size && digest(content) == o.sha
  }

  lemma {:induction false} JoinedGrows(pieces: seq<Piece>, i: nat)
    requires i <= |pieces|
    ensures |Joined(pieces[..i])| <= |Joined(pieces)|
    decreases |pieces|
  {
    if i < |pieces| {
      assert pieces[..|pieces| - 1][..i] == pieces[..i];
      JoinedGrows(pieces[..|pieces| - 1], i);
    } else {
      assert pieces[..i] == pieces;
    }
  }

  /** The streamed check, which stops at the first surplus byte, accepts exactly a whole and matching body. */
  method Verify(digest: bytes -> bytes, status: nat, contentLength: Option<nat>, pieces: seq<Piece>, o: Object)
    returns (ok: bool)
    ensures ok <==>
      && status == OK_STATUS && (contentLength.None? || contentLength == Some(o.size))
      && Unbroken(pieces) && Matches(digest, Joined(pieces), o)
  {
    if status != OK_STATUS {
      return false;
    }
    if contentLength.Some? && contentLength.value != o.size {
      return false;
    }
    var count, hashed: bytes := 0, [];
    for i := 0 to |pieces|
      invariant Unbroken(pieces[..i]) && hashed == Joined(pieces[..i]) && count == |hashed| <= o.size
    {
      assert pieces[..i + 1][..i] == pieces[..i];
      if pieces[i].Broken? {
        return false;
      }
      count, hashed := count + |pieces[i].content|, hashed + pieces[i].content;
      assert hashed == Joined(pieces[..i + 1]);
      if count > o.size {
        JoinedGrows(pieces, i + 1);
        return false;
      }
    }
    assert pieces[..|pieces|] == pieces;
    return count == o.size && digest(hashed) == o.sha;
  }

  // ----- the attempts for one object

  /** What one attempt meets: its result, and whether cancellation is seen right after it or during the pause. */
  datatype Attempt = Attempt(ok: bool, cancelled: bool, cancelledAsleep: bool)

  datatype Entry = Entry(key: bytes, attempt: nat, verified: bool)

  /** The attempt was made: every one before it failed and none met a cancellation. */
  predicate Reached(world: seq<Attempt>, i: nat)
    requires |world| == MAX_ATTEMPTS
  {
    i < MAX_ATTEMPTS && forall j :: 0 <= j < i ==> !world[j].ok && !world[j].cancelled && !world[j].cancelledAsleep
  }

  class Journal {
    var entries: seq<Entry>

    constructor ()
      ensures entries == []
    {
      entries := [];
    }

    /** Up to three attempts, each written to the journal; success ends them, and so does cancellation. */
    method UploadObject(key: bytes, world: seq<Attempt>) returns (ok: bool, ghost made: nat)
      requires |world| == MAX_ATTEMPTS
      modifies this
      ensures 1 <= made <= MAX_ATTEMPTS && (forall i: nat :: Reached(world, i) <==> i < made)
      ensures entries == old(entries) + seq(made, i requires 0 <= i < made => Entry(key, i + 1, world[i].ok))
      ensures ok <==> exists i: nat :: Reached(world, i) && world[i].ok
    {
      made := 0;
      ok := false;
      for i := 0 to MAX_ATTEMPTS
        invariant made == i && !ok
        invariant forall j :: 0 <= j < i ==> !world[j].ok && !world[j].cancelled && !world[j].cancelledAsleep
        invariant entries == old(entries) + seq(i, j requires 0 <= j < i => Entry(key, j + 1, world[j].ok))
      {
        assert Reached(world, i);
        entries := entries + [Entry(key, i + 1, world[i].ok)];
        made := i + 1;
        if world[i].ok {
          ok := true;
          return;
        }
        if world[i].cancelled {
          return;
        }
        if i + 1 < MAX_ATTEMPTS && world[i].cancelledAsleep {
          return;
        }
        if i + 1 == MAX_ATTEMPTS {
          return;
        }
      }
    }
  }
}
