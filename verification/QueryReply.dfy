/** The bytes sent in answer to a guest query, and how a client takes them apart again. */
module QueryReply {
  import opened Options
  import opened Bytes
  import opened Endian
  import opened Framing
  import opened GuestStore
  import opened Sums

  const EMPTY: seq<Byte> := [101, 109, 112, 116, 121]  // "empty"
  const OK: seq<Byte> := [111, 107]  // "ok"

  /** The pictures stored for `id`, oldest first. */
  function Matching(view: seq<Picture>, id: int): seq<seq<Byte>>
  {
    if view == [] then [] else
      var earlier, last := Matching(view[..|view| - 1], id), view[|view| - 1];
      if last.id == id then earlier + [last.bytes] else earlier
  }

  lemma MatchingNext(view: seq<Picture>, k: nat, id: int)
    requires k < |view|
    ensures Matching(view[..k + 1], id)
         == if view[k].id == id then Matching(view[..k], id) + [view[k].bytes] else Matching(view[..k], id)
  {
    assert view[..k + 1][..k] == view[..k];
  }

  function HasId(id: int): Picture -> bool
  {
    (p: Picture) => p.id == id
  }

  /** The matching pictures are all there, each in the place that the number of earlier ones gives it. */
  lemma {:induction false} MatchingInOrder(view: seq<Picture>, id: int)
    ensures |Matching(view, id)| == Count(view, HasId(id))
    ensures forall i :: 0 <= i < |view| && view[i].id == id ==>
              Count(view[..i], HasId(id)) < Count(view, HasId(id))
              && Matching(view, id)[Count(view[..i], HasId(id))] == view[i].bytes
  {
    if view != [] {
      var n := |view| - 1;
      MatchingInOrder(view[..n], id);
      forall i | 0 <= i < |view| && view[i].id == id
        ensures Count(view[..i], HasId(id)) < Count(view, HasId(id))
        ensures Matching(view, id)[Count(view[..i], HasId(id))] == view[i].bytes
      {
        if i < n {
          assert view[..n][..i] == view[..i] && view[..n][i] == view[i];
        }
      }
    }
  }

  /** Total length in host order, itself included, then the picture. */
  function ReplyFrame(p: seq<Byte>): (s: seq<Byte>)
    ensures |s| == 4 + |p|
  {
    ToLe(|p| + 4, 4) + p
  }

  function Reply(ps: seq<seq<Byte>>): seq<Byte>
  {
    if ps == [] then [] else Reply(ps[..|ps| - 1]) + ReplyFrame(ps[|ps| - 1])
  }

  function Answer(view: seq<Picture>, id: int): seq<Byte>
  {
    if Matching(view, id) == [] then EMPTY else Reply(Matching(view, id))
  }

  /** Splits a reply into pictures, if it is a sequence of well-formed reply frames. */
  function ParsePictures(s: seq<Byte>): Option<seq<seq<Byte>>>
    decreases |s|
  {
    if s == [] then Some([])
    else if |s| < 4 then None
    else
      var n := Host32(s[..4]);
      if n < 4 || n > |s| then None
      else match ParsePictures(s[n..])
           case None => None
           case Some(ps) => Some([s[4..n]] + ps)
  }

  lemma ReplyExtend(ps: seq<seq<Byte>>, p: seq<Byte>)
    ensures Reply(ps + [p]) == Reply(ps) + ToLe(|p| + 4, 4) + p
  {
    assert (ps + [p])[..|ps|] == ps;
    Associates(Reply(ps), ToLe(|p| + 4, 4), p);
  }

  /** One turn of the query loop. */
  lemma ReplyNext(view: seq<Picture>, k: nat, id: int)
    requires k < |view|
    ensures view[k].id == id ==>
              && Reply(Matching(view[..k + 1], id))
                 == Reply(Matching(view[..k], id)) + ToLe(|view[k].bytes| + 4, 4) + view[k].bytes
              && |Matching(view[..k + 1], id)| == |Matching(view[..k], id)| + 1
    ensures view[k].id != id ==> Matching(view[..k + 1], id) == Matching(view[..k], id)
  {
    MatchingNext(view, k, id);
    ReplyExtend(Matching(view[..k], id), view[k].bytes);
  }

  /** What a client makes of an answer. */
  function DecodeAnswer(s: seq<Byte>): Option<seq<seq<Byte>>>
  {
    if s == EMPTY then Some([]) else ParsePictures(s)
  }

  /** The total length is computed as an int32. */
  predicate Sized(ps: seq<seq<Byte>>)
  {
    forall i :: 0 <= i < |ps| ==> |ps[i]| + 4 < 0x8000_0000
  }

  lemma {:induction false} ReplyHead(ps: seq<seq<Byte>>)
    requires ps != []
    ensures Reply(ps) == ReplyFrame(ps[0]) + Reply(ps[1..])
  {
    var n := |ps| - 1;
    if n == 0 {
      assert ps[..0] == [] && ps[1..] == [];
    } else {
      ReplyHead(ps[..n]);
      assert ps[..n][1..] == ps[1..][..n - 1];
      Associates(ReplyFrame(ps[0]), Reply(ps[1..][..n - 1]), ReplyFrame(ps[n]));
    }
  }

  lemma FrameReadsBack(p: seq<Byte>, rest: seq<Byte>)
    requires |p| + 4 < 0x8000_0000
    ensures var s := ReplyFrame(p) + rest;
            Host32(s[..4]) == |p| + 4 && s[4..|p| + 4] == p && s[|p| + 4..] == rest
  {
    var s := ReplyFrame(p) + rest;
    assert s[..4] == ToLe(|p| + 4, 4);
    HostFieldReadsBack(|p| + 4) by { Pow256Values(); }
  }

  lemma ParseFirst(s: seq<Byte>, n: nat, ps: seq<seq<Byte>>)
    requires 4 <= n <= |s| && Host32(s[..4]) == n
    requires ParsePictures(s[n..]) == Some(ps)
    ensures ParsePictures(s) == Some([s[4..n]] + ps)
  {
  }

  /** A reply is taken apart into exactly the pictures it was built from. */
  lemma {:induction false} ParseReply(ps: seq<seq<Byte>>)
    requires Sized(ps)
    ensures ParsePictures(Reply(ps)) == Some(ps)
  {
    if ps != [] {
      var p, rest := ps[0], Reply(ps[1..]);
      ParseReply(ps[1..]);
      ReplyHead(ps);
      FrameReadsBack(p, rest);
      ParseFirst(Reply(ps), |p| + 4, ps[1..]);
      assert ps == [p] + ps[1..];
    }
  }

  lemma EmptyIsNotAReply()
    ensures ParsePictures(EMPTY) == None
  {
    Pow256Values();
    FromLeOf4(101, 109, 112, 116);
    assert EMPTY[..4] == [101, 109, 112, 116];
  }

  /** The answer says "empty" exactly when no picture matches, and otherwise decodes to the matching
      pictures in the order in which they were added. */
  lemma AnswersDecode(view: seq<Picture>, id: int)
    requires Sized(Matching(view, id))
    ensures Answer(view, id) == EMPTY <==> Matching(view, id) == []
    ensures DecodeAnswer(Answer(view, id)) == Some(Matching(view, id))
  {
    ParseReply(Matching(view, id));
    EmptyIsNotAReply();
  }

  lemma {:induction false} MatchingSized(view: seq<Picture>, id: int)
    requires forall i :: 0 <= i < |view| ==> |view[i].bytes| + 4 < 0x8000_0000
    ensures Sized(Matching(view, id))
  {
    if view != [] {
      MatchingSized(view[..|view| - 1], id);
    }
  }

  lemma StoredAnswersDecode(st: Store, id: int)
    requires Owned(st) && forall i :: 0 <= i < |st.list| ==> st.list[i].lenPic + 4 < 0x8000_0000
    ensures DecodeAnswer(Answer(View(st), id)) == Some(Matching(View(st), id))
  {
    var view := View(st);
    forall i | 0 <= i < |view| ensures |view[i].bytes| + 4 < 0x8000_0000 {
      assert |view[i].bytes| == st.list[i].lenPic;
    }
    MatchingSized(view, id);
    AnswersDecode(view, id);
  }

  lemma {:induction false} ArrivedSized(events: seq<Event>)
    requires forall i :: 0 <= i < |events| && events[i].Add? ==> |events[i].bytes| + 4 < 0x8000_0000
    ensures forall i :: 0 <= i < |Arrived(events)| ==> |Arrived(events)[i].bytes| + 4 < 0x8000_0000
  {
    if events != [] {
      ArrivedSized(events[..|events| - 1]);
    }
  }

  /** Over whole runs: a query answers with the pictures of exactly those `appl` frames for that id
      whose entries have not been swept. */
  lemma QueryAfterRun(events: seq<Event>, id: int)
    requires forall i :: 0 <= i < |events| && events[i].Add? ==> |events[i].bytes| + 4 < 0x8000_0000
    ensures var st := Run(events);
            && |st.heap.freed| <= |Arrived(events)|
            && DecodeAnswer(Answer(View(st), id)) == Some(Matching(Arrived(events)[|st.heap.freed|..], id))
  {
    OwnershipIsConserved(events);
    ArrivedSized(events);
    MatchingSized(View(Run(events)), id);
    AnswersDecode(View(Run(events)), id);
  }
}
