/** A capacity-bounded mailbox: a bounded inbox kept in arrival order, an
    unbounded trash, eviction of the oldest mail when the inbox is full,
    deletion by message text and date-range counting. */
module Driver {

  import opened Wrappers

  /** One received mail. The date is an instant, modelled as an integer
      timestamp: only its total order is ever used. */
  datatype Mail = Mail(date: int, sender: string, message: string)

  // ---------------------------------------------------------------------
  // Specification of mail lists
  // ---------------------------------------------------------------------

  /** Dates never decrease from the oldest mail to the newest one. */
  ghost predicate Sorted(s: seq<Mail>)
  {
    forall i, j :: 0 <= i < j < |s| ==> s[i].date <= s[j].date
  }

  /** No two mails of the list carry the same message text. */
  ghost predicate DistinctMessages(s: seq<Mail>)
  {
    forall i, j :: 0 <= i < j < |s| ==> s[i].message != s[j].message
  }

  /** A mail dated no earlier than every mail of `s`. */
  ghost predicate NoEarlierThanAll(mail: Mail, s: seq<Mail>)
  {
    forall k :: 0 <= k < |s| ==> s[k].date <= mail.date
  }

  /** The mails of `s` whose message is not `m`, in their order in `s`:
      what a deletion of `m` leaves in the inbox. */
  function Remaining(s: seq<Mail>, m: string): (r: seq<Mail>)
    ensures |r| <= |s|
  {
    if s == [] then []
    else if s[0].message == m then Remaining(s[1..], m)
    else [s[0]] + Remaining(s[1..], m)
  }

  /** The mails of `s` whose message is `m`, in their order in `s`:
      what a deletion of `m` moves to the trash. */
  function Removed(s: seq<Mail>, m: string): (r: seq<Mail>)
    ensures |r| <= |s|
  {
    if s == [] then []
    else if s[0].message == m then [s[0]] + Removed(s[1..], m)
    else Removed(s[1..], m)
  }

  /** Whether the mail's date lies in [start, end], both bounds included. */
  predicate InRange(mail: Mail, start: int, end: int)
  {
    start <= mail.date && mail.date <= end
  }

  /** The number of mails of `s` dated in [start, end]. */
  function CountInRange(s: seq<Mail>, start: int, end: int): (r: nat)
    ensures r <= |s|
    ensures s == [] ==> r == 0
  {
    if s == [] then 0
    else (if InRange(s[0], start, end) then 1 else 0) + CountInRange(s[1..], start, end)
  }

  // ---------------------------------------------------------------------
  // Properties of the specification
  // ---------------------------------------------------------------------

  /** Filtering a concatenation filters each part. */
  lemma {:induction false} RemainingAppend(a: seq<Mail>, b: seq<Mail>, m: string)
    ensures Remaining(a + b, m) == Remaining(a, m) + Remaining(b, m)
    ensures Removed(a + b, m) == Removed(a, m) + Removed(b, m)
  {
    if a == [] {
      assert a + b == b;
    } else {
      assert (a + b)[0] == a[0] && (a + b)[1..] == a[1..] + b;
      RemainingAppend(a[1..], b, m);
    }
  }

  /** Every kept mail comes from `s` and does not carry `m`; every trashed
      mail comes from `s` and carries `m`. */
  lemma {:induction false} FilterMembers(s: seq<Mail>, m: string)
    ensures forall x :: x in Remaining(s, m) ==> x in s && x.message != m
    ensures forall x :: x in Removed(s, m) ==> x in s && x.message == m
  {
    if s != [] {
      FilterMembers(s[1..], m);
    }
  }

  /** Inspecting one more mail of `s` extends what is kept or what is trashed. */
  lemma FilterStep(s: seq<Mail>, j: nat, m: string)
    requires j < |s|
    ensures Remaining(s[..j + 1], m) == Remaining(s[..j], m) + (if s[j].message == m then [] else [s[j]])
    ensures Removed(s[..j + 1], m) == Removed(s[..j], m) + (if s[j].message == m then [s[j]] else [])
  {
    assert s[..j + 1] == s[..j] + [s[j]];
    RemainingAppend(s[..j], [s[j]], m);
  }

  /** Removing the element at `i` keeps what precedes it and shifts what follows. */
  lemma DropAt(s: seq<Mail>, i: nat)
    requires i < |s|
    ensures (s[..i] + s[i + 1..])[..i] == s[..i]
    ensures (s[..i] + s[i + 1..])[i..] == s[i + 1..]
  {
  }

  /** A deletion splits the list without losing or duplicating a mail: the
      mails kept and the mails trashed together are exactly the old ones. */
  lemma {:induction false} RemainingRemovedPartition(s: seq<Mail>, m: string)
    ensures multiset(Remaining(s, m)) + multiset(Removed(s, m)) == multiset(s)
  {
    if s != [] {
      RemainingRemovedPartition(s[1..], m);
      assert s == [s[0]] + s[1..];
      assert multiset(s) == multiset{s[0]} + multiset(s[1..]);
      if s[0].message == m {
        assert multiset(Removed(s, m)) == multiset{s[0]} + multiset(Removed(s[1..], m));
      } else {
        assert multiset(Remaining(s, m)) == multiset{s[0]} + multiset(Remaining(s[1..], m));
      }
    }
  }

  /** A deletion changes nothing exactly when no mail carries the message. */
  lemma {:induction false} RemainingUnchangedIff(s: seq<Mail>, m: string)
    ensures Remaining(s, m) == s <==> forall k :: 0 <= k < |s| ==> s[k].message != m
    ensures Removed(s, m) == [] <==> forall k :: 0 <= k < |s| ==> s[k].message != m
  {
    if s != [] {
      RemainingUnchangedIff(s[1..], m);
      if s[0].message == m {
        // the filtered list is shorter than s, and s[0] is never trashed silently
        assert |Remaining(s, m)| <= |s[1..]| < |s|;
        assert Removed(s, m)[0] == s[0];
      } else {
        assert forall k :: 1 <= k < |s| ==> s[k] == s[1..][k - 1];
      }
    }
  }

  /** When messages are distinct, a deletion trashes at most one mail. */
  lemma {:induction false} DistinctRemovesAtMostOne(s: seq<Mail>, m: string)
    requires DistinctMessages(s)
    ensures |Removed(s, m)| <= 1
  {
    if s != [] {
      assert DistinctMessages(s[1..]) by {
        forall i, j | 0 <= i < j < |s[1..]| ensures s[1..][i].message != s[1..][j].message {
          assert s[1..][i] == s[i + 1] && s[1..][j] == s[j + 1];
        }
      }
      DistinctRemovesAtMostOne(s[1..], m);
      if s[0].message == m {
        assert Removed(s[1..], m) == [] by {
          forall k | 0 <= k < |s[1..]| ensures s[1..][k].message != m {
            assert s[1..][k] == s[k + 1];
          }
          RemainingUnchangedIff(s[1..], m);
        }
      }
    }
  }

  /** Deleting keeps the inbox in date order and keeps its messages distinct. */
  lemma {:induction false} RemainingKeepsOrder(s: seq<Mail>, m: string)
    ensures Sorted(s) ==> Sorted(Remaining(s, m))
    ensures DistinctMessages(s) ==> DistinctMessages(Remaining(s, m))
  {
    if s != [] {
      var tail := s[1..];
      assert Sorted(s) ==> Sorted(tail) by {
        if Sorted(s) {
          forall i, j | 0 <= i < j < |tail| ensures tail[i].date <= tail[j].date {
            assert tail[i] == s[i + 1] && tail[j] == s[j + 1];
          }
        }
      }
      assert DistinctMessages(s) ==> DistinctMessages(tail) by {
        if DistinctMessages(s) {
          forall i, j | 0 <= i < j < |tail| ensures tail[i].message != tail[j].message {
            assert tail[i] == s[i + 1] && tail[j] == s[j + 1];
          }
        }
      }
      RemainingKeepsOrder(tail, m);
      FilterMembers(tail, m);
      if s[0].message != m {
        var rest := Remaining(tail, m);
        assert Remaining(s, m) == [s[0]] + rest;
        forall x | x in rest
          ensures Sorted(s) ==> s[0].date <= x.date
          ensures DistinctMessages(s) ==> s[0].message != x.message
        {
          var k :| 0 <= k < |tail| && tail[k] == x;
          assert s[k + 1] == x;
        }
      }
    }
  }

  /** Counting over a concatenation adds the counts of the parts. */
  lemma {:induction false} CountInRangeAppend(a: seq<Mail>, b: seq<Mail>, start: int, end: int)
    ensures CountInRange(a + b, start, end) == CountInRange(a, start, end) + CountInRange(b, start, end)
  {
    if a == [] {
      assert a + b == b;
    } else {
      assert (a + b)[0] == a[0] && (a + b)[1..] == a[1..] + b;
      CountInRangeAppend(a[1..], b, start, end);
    }
  }

  /** The count reaches the length of the list exactly when every mail is in
      range, and is zero exactly when no mail is. */
  lemma {:induction false} CountInRangeExtremes(s: seq<Mail>, start: int, end: int)
    ensures CountInRange(s, start, end) == |s| <==> forall k :: 0 <= k < |s| ==> InRange(s[k], start, end)
    ensures CountInRange(s, start, end) == 0 <==> forall k :: 0 <= k < |s| ==> !InRange(s[k], start, end)
  {
    if s != [] {
      CountInRangeExtremes(s[1..], start, end);
      assert forall k :: 1 <= k < |s| ==> s[k] == s[1..][k - 1];
    }
  }

  /** A mail deleted from the inbox no longer contributes to a range count:
      the count splits between the mails kept and the mails trashed. */
  lemma {:induction false} CountInRangeAfterDelete(s: seq<Mail>, m: string, start: int, end: int)
    ensures CountInRange(Remaining(s, m), start, end) + CountInRange(Removed(s, m), start, end)
            == CountInRange(s, start, end)
  {
    if s != [] {
      CountInRangeAfterDelete(s[1..], m, start, end);
    }
  }

  /** In a date-ordered list the last mail is the latest and the first the oldest. */
  lemma LastIsLatest(s: seq<Mail>)
    requires s != []
    ensures Sorted(s) ==> forall k :: 0 <= k < |s| ==> s[0].date <= s[k].date <= s[|s| - 1].date
  {
  }

  // ---------------------------------------------------------------------
  // The mailbox
  // ---------------------------------------------------------------------

  class Gmail {
    /** The account identifier the mailbox belongs to; never interpreted. */
    const emailId: string
    /** The maximum number of mails the inbox holds; never reassigned. */
    const capacity: int
    /** Mails received and not yet evicted or deleted, oldest first. */
    var inbox: seq<Mail>
    /** Mails evicted or deleted since the trash was last emptied. */
    var trash: seq<Mail>
    /** A counter kept alongside the inbox, the inbox size the mailbox reports. */
    var count: int

    /** The counter mirrors the inbox, and the inbox stays within capacity
        (a mailbox whose capacity is below one never holds a mail). */
    ghost predicate Valid()
      reads this
    {
      count == |inbox| && (inbox == [] || |inbox| <= capacity)
    }

    constructor (emailId: string, inboxCapacity: int)
      ensures Valid()
      ensures this.emailId == emailId && capacity == inboxCapacity
      ensures inbox == [] && trash == [] && count == 0
    {
      this.emailId := emailId;
      count := 0;
      capacity := inboxCapacity;
      inbox := [];
      trash := [];
    }

    /** Appends a new mail; a full inbox first evicts its oldest mail to the
        trash. The capacity must be at least one: otherwise the eviction
        would remove from an empty inbox. */
    method ReceiveMail(date: int, sender: string, message: string)
      requires Valid() && capacity >= 1
      modifies this`inbox, this`trash, this`count
      ensures Valid() && inbox != [] && inbox[|inbox| - 1] == Mail(date, sender, message)
      ensures old(|inbox|) >= capacity ==>
                inbox == old(inbox)[1..] + [Mail(date, sender, message)] &&
                trash == old(trash) + [old(inbox)[0]]
      ensures old(|inbox|) < capacity ==>
                inbox == old(inbox) + [Mail(date, sender, message)] && trash == old(trash)
      ensures old(Sorted(inbox)) && NoEarlierThanAll(Mail(date, sender, message), old(inbox)) ==> Sorted(inbox)
      ensures old(DistinctMessages(inbox)) &&
              (forall k :: 0 <= k < old(|inbox|) ==> old(inbox)[k].message != message) ==>
                DistinctMessages(inbox)
    {
      var mail := Mail(date, sender, message);
      if count >= capacity {
        MoveOldestMailToTrash();
        count := count - 1;
      }
      inbox := inbox + [mail];
      count := count + 1;
    }

    /** Moves the oldest inbox mail to the end of the trash. */
    method MoveOldestMailToTrash()
      requires inbox != []
      modifies this`inbox, this`trash
      ensures inbox == old(inbox)[1..] && trash == old(trash) + [old(inbox)[0]]
      ensures old(Sorted(inbox)) ==> Sorted(inbox)
      ensures old(DistinctMessages(inbox)) ==> DistinctMessages(inbox)
    {
      var oldestMail := inbox[0];
      inbox := inbox[1..];
      trash := trash + [oldestMail];
    }

    /** Moves every inbox mail whose message is `message` to the trash, in
        inbox order, keeping the order of the mails left behind. */
    method DeleteMail(message: string)
      requires Valid()
      modifies this`inbox, this`trash, this`count
      ensures Valid()
      ensures inbox == Remaining(old(inbox), message)
      ensures trash == old(trash) + Removed(old(inbox), message)
      ensures old(Sorted(inbox)) ==> Sorted(inbox)
      ensures old(DistinctMessages(inbox)) ==> DistinctMessages(inbox)
    {
      ghost var original := inbox;
      // the iterator's cursor: inbox[..i] is what it has returned and kept
      var i := 0;
      // how many mails of the original inbox the iterator has returned
      ghost var seen := 0;
      while i < |inbox|
        invariant 0 <= i <= |inbox| && 0 <= seen <= |original|
        invariant inbox[..i] == Remaining(original[..seen], message)
        invariant inbox[i..] == original[seen..]
        invariant trash == old(trash) + Removed(original[..seen], message)
        invariant count == |inbox|
        decreases |inbox| - i
      {
        var mail := inbox[i];
        assert mail == original[seen];
        FilterStep(original, seen, message);
        if mail.message == message {
          trash := trash + [mail];
          DropAt(inbox, i);
          inbox := inbox[..i] + inbox[i + 1..];
          count := count - 1;
        } else {
          assert inbox[..i + 1] == inbox[..i] + [mail];
          i := i + 1;
        }
        seen := seen + 1;
      }
      assert original[..seen] == original;
      RemainingKeepsOrder(original, message);
    }

    /** The message of the newest inbox mail, or None for an empty inbox. */
    function FindLatestMessage(): (r: Option<string>)
      reads this
      ensures r == None <==> inbox == []
      ensures r.Some? ==> r.value == inbox[|inbox| - 1].message
      ensures r.Some? && Sorted(inbox) ==>
                forall k :: 0 <= k < |inbox| ==> inbox[k].date <= inbox[|inbox| - 1].date
    {
      if inbox == [] then None
      else
        LastIsLatest(inbox);
        Some(inbox[|inbox| - 1].message)
    }

    /** The message of the oldest inbox mail, or None for an empty inbox. */
    function FindOldestMessage(): (r: Option<string>)
      reads this
      ensures r == None <==> inbox == []
      ensures r.Some? ==> r.value == inbox[0].message
      ensures r.Some? && Sorted(inbox) ==>
                forall k :: 0 <= k < |inbox| ==> inbox[0].date <= inbox[k].date
    {
      if inbox == [] then None
      else
        LastIsLatest(inbox);
        Some(inbox[0].message)
    }

    /** The number of inbox mails dated in [start, end], bounds included. */
    method FindMailsBetweenDates(start: int, end: int) returns (res: nat)
      ensures res == CountInRange(inbox, start, end)
      ensures res <= |inbox|
    {
      if inbox == [] {
        return 0;
      }
      res := 0;
      for k := 0 to |inbox|
        invariant res + CountInRange(inbox[k..], start, end) == CountInRange(inbox, start, end)
      {
        assert inbox[k..][1..] == inbox[k + 1..];
        if start <= inbox[k].date && inbox[k].date <= end {
          res := res + 1;
        }
      }
    }

    /** The inbox size as the mailbox reports it: its counter. */
    function GetInboxSize(): (r: int)
      reads this
      requires Valid()
      ensures r == |inbox|
    {
      count
    }

    /** The number of mails in the trash. */
    function GetTrashSize(): (r: nat)
      reads this
      ensures r == 0 <==> trash == []
    {
      |trash|
    }

    /** Discards every trashed mail and nothing else. */
    method EmptyTrash()
      requires Valid()
      modifies this`trash
      ensures Valid() && trash == []
    {
      trash := [];
    }

    /** The capacity fixed at construction: the bound every non-empty inbox
        respects. */
    function GetInboxCapacity(): (r: int)
      reads this
      requires Valid()
      ensures inbox == [] || |inbox| <= r
    {
      capacity
    }
  }

  /** A client scenario of the mailbox: three mails fill a capacity-three inbox, a
      fourth evicts the oldest, a deletion and an emptied trash follow. */
  method Scenario()
  {
    var box := new Gmail("user@example.com", 3);
    box.ReceiveMail(5, "a", "m1");
    box.ReceiveMail(10, "b", "m2");
    box.ReceiveMail(15, "c", "m3");
    assert box.GetInboxSize() == 3;
    assert box.FindOldestMessage() == Some("m1");
    assert box.FindLatestMessage() == Some("m3");

    box.ReceiveMail(20, "d", "m4");
    assert box.GetInboxSize() == 3 && |box.trash| == 1;
    assert box.trash[0].message == "m1";
    assert box.FindOldestMessage() == Some("m2");

    var m2, m3, m4 := Mail(10, "b", "m2"), Mail(15, "c", "m3"), Mail(20, "d", "m4");
    assert box.inbox == [m2, m3, m4];
    assert Remaining([m4], "m2") == [m4] && Removed([m4], "m2") == [];
    assert [m2, m3, m4][1..] == [m3, m4] && [m3, m4][1..] == [m4];
    box.DeleteMail("m2");
    assert box.inbox == [m3, m4];
    assert box.GetInboxSize() == 2 && |box.trash| == 2;
    assert box.FindOldestMessage() == Some("m3");
    var n := box.FindMailsBetweenDates(15, 15);
    assert n == 1;

    box.EmptyTrash();
    assert box.GetTrashSize() == 0 && box.GetInboxSize() == 2;
  }
}
