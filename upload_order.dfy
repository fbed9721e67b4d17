/**
 * The listing query `find({ user }).sort({ uploadDate: -1 })`: the records
 * owned by one user, newest upload first. The database's sort is modelled
 * by an insertion sort; its contract says only what the query promises
 * (newest first, the same records), not how records with equal upload
 * dates are ordered.
 */
module UploadOrder {
  import opened PdfModel

  /** The filter `{ user }`: the records owned by `user`, in collection order. */
  function OwnedBy(rs: seq<Pdf>, user: UserId): (r: seq<Pdf>)
    ensures forall p :: multiset(r)[p] == if p.user == user then multiset(rs)[p] else 0
  {
    if rs == [] then []
    else
      assert rs == [rs[0]] + rs[1..];
      if rs[0].user == user then [rs[0]] + OwnedBy(rs[1..], user) else OwnedBy(rs[1..], user)
  }

  predicate NewestFirst(rs: seq<Pdf>)
  {
    forall i, j :: 0 <= i < j < |rs| ==> rs[i].uploadDate >= rs[j].uploadDate
  }

  function InsertByDate(p: Pdf, rs: seq<Pdf>): (r: seq<Pdf>)
    requires NewestFirst(rs)
    ensures NewestFirst(r)
    ensures multiset(r) == multiset(rs) + multiset{p}
    ensures |r| == |rs| + 1 && (r[0] == p || (rs != [] && r[0] == rs[0]))
  {
    if rs == [] then [p]
    else if p.uploadDate >= rs[0].uploadDate then [p] + rs
    else
      assert rs == [rs[0]] + rs[1..];
      [rs[0]] + InsertByDate(p, rs[1..])
  }

  /** The sort `{ uploadDate: -1 }`. */
  function SortNewestFirst(rs: seq<Pdf>): (r: seq<Pdf>)
    ensures NewestFirst(r)
    ensures multiset(r) == multiset(rs)
  {
    if rs == [] then []
    else
      assert rs == [rs[0]] + rs[1..];
      InsertByDate(rs[0], SortNewestFirst(rs[1..]))
  }

  /** Strictly increasing upload dates: the order in which records are uploaded one after another. */
  predicate OldestFirstStrictly(rs: seq<Pdf>)
  {
    forall i, j :: 0 <= i < j < |rs| ==> rs[i].uploadDate < rs[j].uploadDate
  }

  function Reversed(rs: seq<Pdf>): (r: seq<Pdf>)
  {
    if rs == [] then [] else Reversed(rs[1..]) + [rs[0]]
  }

  /** A record older than every record of a newest-first sequence goes at its end. */
  lemma {:induction false} InsertOldest(p: Pdf, rs: seq<Pdf>)
    requires NewestFirst(rs)
    requires forall k :: 0 <= k < |rs| ==> p.uploadDate < rs[k].uploadDate
    ensures InsertByDate(p, rs) == rs + [p]
  {
    if rs != [] {
      InsertOldest(p, rs[1..]);
      assert rs == [rs[0]] + rs[1..];
    }
  }

  /** Records with strictly increasing upload dates are listed in reverse. */
  lemma {:induction false} SortReversesUploadOrder(rs: seq<Pdf>)
    requires OldestFirstStrictly(rs)
    ensures SortNewestFirst(rs) == Reversed(rs)
  {
    if rs != [] {
      var tail := SortNewestFirst(rs[1..]);
      SortReversesUploadOrder(rs[1..]);
      forall k | 0 <= k < |tail| ensures rs[0].uploadDate < tail[k].uploadDate {
        assert tail[k] in multiset(rs[1..]);
        var m :| 0 <= m < |rs[1..]| && rs[1..][m] == tail[k];
        assert rs[1..][m] == rs[m + 1];
      }
      InsertOldest(rs[0], tail);
    }
  }
}
