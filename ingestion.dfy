/**
 * The message-processing step: extract an address from each message, and
 * for every address not seen before, record it in the rolling feed and in
 * the seen set, trim the feed to its size bound and report the address once
 * to the `on_change` callback.
 */
module Ingestion {
  import opened Wrappers
  import opened PersistentSets
  import MintExtractor

  /** The addresses a batch of message texts carries, in message order. */
  function Addresses(messages: seq<Option<string>>): (r: seq<string>)
    ensures |r| <= |messages|
  {
    if messages == [] then []
    else
      var init := messages[..|messages| - 1];
      Addresses(init) + Found(MintExtractor.Extract(messages[|messages| - 1]))
  }

  /** The address an extraction found, as a list of zero or one. */
  function Found(r: Option<string>): seq<string> {
    match r
    case Some(a) => [a]
    case None => []
  }

  /** The elements of a concatenation. */
  lemma ElemsAppend(xs: seq<string>, ys: seq<string>)
    ensures Elems(xs + ys) == Elems(xs) + Elems(ys)
  {
  }

  /** Extending a batch by one message extends its addresses by that message's. */
  lemma AddressesSnoc(messages: seq<Option<string>>, i: nat)
    requires i < |messages|
    ensures Addresses(messages[..i + 1]) ==
      Addresses(messages[..i]) + Found(MintExtractor.Extract(messages[i]))
  {
    assert messages[..i + 1][..i] == messages[..i];
  }

  /** Every listed address was yielded by some message of the batch. */
  lemma {:induction false} AddressesSound(messages: seq<Option<string>>, a: string)
    requires a in Addresses(messages)
    ensures exists i | 0 <= i < |messages| :: MintExtractor.Extract(messages[i]) == Some(a)
  {
    var n := |messages| - 1;
    var init := messages[..n];
    var r := MintExtractor.Extract(messages[n]);
    assert Addresses(messages) == Addresses(init) + Found(r);
    if a in Addresses(init) {
      AddressesSound(init, a);
      var i :| 0 <= i < n && MintExtractor.Extract(init[i]) == Some(a);
      assert init[i] == messages[i];
    } else {
      assert a in Found(r);
      assert r == Some(a);
    }
  }

  /** Every address a message of the batch yields is listed. */
  lemma {:induction false} AddressesComplete(messages: seq<Option<string>>, i: nat)
    requires i < |messages| && MintExtractor.Extract(messages[i]).Some?
    ensures MintExtractor.Extract(messages[i]).value in Addresses(messages)
  {
    var n := |messages| - 1;
    var init := messages[..n];
    assert Addresses(messages) == Addresses(init) + Found(MintExtractor.Extract(messages[n]));
    if i < n {
      assert init[i] == messages[i];
      AddressesComplete(init, i);
    }
  }

  /** An address is listed exactly when some message of the batch yields it. */
  lemma AddressesSpec(messages: seq<Option<string>>, a: string)
    ensures a in Addresses(messages) <==>
      exists i | 0 <= i < |messages| :: MintExtractor.Extract(messages[i]) == Some(a)
  {
    if a in Addresses(messages) {
      AddressesSound(messages, a);
    }
    if exists i | 0 <= i < |messages| :: MintExtractor.Extract(messages[i]) == Some(a) {
      var i :| 0 <= i < |messages| && MintExtractor.Extract(messages[i]) == Some(a);
      AddressesComplete(messages, i);
    }
  }

  /**
   * The addresses of `addrs` that are not in `seen`, each at its first
   * occurrence, in order: the ones a pass announces.
   */
  function NewAddresses(addrs: seq<string>, seen: set<string>): seq<string>
    decreases |addrs|
  {
    if addrs == [] then []
    else if addrs[0] in seen then NewAddresses(addrs[1..], seen)
    else [addrs[0]] + NewAddresses(addrs[1..], seen + {addrs[0]})
  }

  /**
   * The announced addresses are exactly the batch's addresses outside
   * `seen`, none of them twice.
   */
  lemma {:induction false} NewAddressesSpec(addrs: seq<string>, seen: set<string>)
    ensures NoDup(NewAddresses(addrs, seen))
    ensures Elems(NewAddresses(addrs, seen)) == Elems(addrs) - seen
    decreases |addrs|
  {
    if addrs != [] {
      var x, rest := addrs[0], addrs[1..];
      assert Elems(addrs) == {x} + Elems(rest);
      if x in seen {
        NewAddressesSpec(rest, seen);
      } else {
        NewAddressesSpec(rest, seen + {x});
        var tail := NewAddresses(rest, seen + {x});
        var r := [x] + tail;
        assert x !in Elems(tail);
        assert Elems(r) == {x} + Elems(tail);
        forall i, j | 0 <= i < j < |r| ensures r[i] != r[j] {
          if i == 0 {
            assert r[j] == tail[j - 1];
            assert r[j] in Elems(tail);
          } else {
            assert r[i] == tail[i - 1] && r[j] == tail[j - 1];
          }
        }
      }
    }
  }

  /** Processing one more address extends the announcements by it if it is new. */
  lemma {:induction false} NewAddressesSnoc(addrs: seq<string>, a: string, seen: set<string>)
    ensures NewAddresses(addrs + [a], seen) ==
      NewAddresses(addrs, seen) + (if a in seen + Elems(addrs) then [] else [a])
    decreases |addrs|
  {
    if addrs == [] {
      assert [] + [a] == [a];
    } else {
      var x, rest := addrs[0], addrs[1..];
      assert (addrs + [a])[0] == x && (addrs + [a])[1..] == rest + [a];
      assert Elems(addrs) == {x} + Elems(rest);
      if x in seen {
        NewAddressesSnoc(rest, a, seen);
      } else {
        NewAddressesSnoc(rest, a, seen + {x});
      }
    }
  }

  /** A second pass over addresses already recorded announces nothing. */
  lemma SecondPassSilent(addrs: seq<string>, seen: set<string>)
    ensures NewAddresses(addrs, seen + Elems(addrs)) == []
  {
    var r := NewAddresses(addrs, seen + Elems(addrs));
    NewAddressesSpec(addrs, seen + Elems(addrs));
    NoDupSize(r);
  }

  /** An address that occurs twice in one batch is announced at most once. */
  lemma AnnouncedOnce(addrs: seq<string>, seen: set<string>, a: string)
    ensures Occurrences(NewAddresses(addrs, seen), a) <= 1
    ensures a in NewAddresses(addrs, seen) <==> a in addrs && a !in seen
  {
    var r := NewAddresses(addrs, seen);
    NewAddressesSpec(addrs, seen);
    if a in r {
      NoDupOccursOnce(r, a);
    }
  }

  /**
   * How one message moves the sets and the announcements of a pass: the seen
   * set gains what the message yields, and the announcements gain what the
   * message announces.
   */
  lemma StepBookkeeping(seen0: set<string>, prefix: seq<string>,
                        found: Option<string>, announce: Option<string>,
                        seenBefore: set<string>, seenAfter: set<string>)
    requires seenBefore == seen0 + Elems(prefix)
    requires announce == (if found.Some? && found.value !in seenBefore then found else None)
    requires seenAfter == seenBefore + Elems(Found(found))
    ensures seenAfter == seen0 + Elems(prefix + Found(found))
    ensures NewAddresses(prefix + Found(found), seen0) == NewAddresses(prefix, seen0) + Found(announce)
  {
    ElemsAppend(prefix, Found(found));
    if found.Some? {
      NewAddressesSnoc(prefix, found.value, seen0);
    } else {
      assert prefix + Found(found) == prefix;
    }
  }

  /** The size a feed of `n` members has once trimmed to `bound`. */
  function Min(n: nat, bound: nat): nat {
    if n <= bound then n else bound
  }

  /** A subset is no larger than its superset. */
  lemma SubsetSize(a: set<string>, b: set<string>)
    requires a <= b
    ensures |a| <= |b|
    ensures |a| == |b| ==> a == b
  {
    var d := b - a;
    assert b == a + d && a * d == {};
    if |a| == |b| {
      assert d == {} by {
        assert |d| == 0;
      }
    }
  }

  /**
   * What a pass has done to the feed, given the feed `latest0` it started
   * from and the addresses it announced: the feed holds only those
   * addresses, and is `latest0` itself while nothing was announced. Once
   * something was, the feed is all of them while that fits `bound` and
   * otherwise exactly `bound` of them.
   */
  predicate FeedTracks(latest0: set<string>, announced: seq<string>, bound: nat, feed: set<string>) {
    var u := latest0 + Elems(announced);
    && feed <= u
    && (announced == [] ==> feed == latest0)
    && (announced != [] ==> |feed| == Min(|u|, bound) && (|u| <= bound ==> feed == u))
  }

  /** One announcement (or none) keeps the feed tracking the pass. */
  lemma FeedStep(latest0: set<string>, announced: seq<string>, announce: Option<string>,
                 bound: nat, before: set<string>, after: set<string>)
    requires FeedTracks(latest0, announced, bound, before)
    requires announce.None? ==> after == before
    requires announce.Some? ==>
      after <= before + {announce.value} &&
      |after| == Min(|before + {announce.value}|, bound)
    ensures FeedTracks(latest0, announced + Found(announce), bound, after)
  {
    ElemsAppend(announced, Found(announce));
    if announce.None? {
      assert announced + Found(announce) == announced;
    } else {
      var a := announce.value;
      var u := latest0 + Elems(announced);
      var u2 := u + {a};
      assert Found(announce) == [a];
      assert latest0 + Elems(announced + [a]) == u2;
      assert after <= u2;
      if before == u {
        SubsetSize(after, u2);
      } else {
        assert |before| == bound && |u| > bound;
        SubsetSize(before, before + {a});
        SubsetSize(u, u2);
      }
    }
  }

  /**
   * Once a pass has announced something the feed fits its bound, and it is
   * either every address it could hold or exactly `bound` of them.
   */
  lemma FeedTracksBound(latest0: set<string>, announced: seq<string>, bound: nat, feed: set<string>)
    requires FeedTracks(latest0, announced, bound, feed) && announced != []
    ensures |feed| <= bound
    ensures feed == latest0 + Elems(announced) || |feed| == bound
  {
  }

  /**
   * The module-level state of the monitor: the rolling feed of latest
   * addresses, the full seen set and the feed's size bound.
   */
  class Monitor {
    /** `latest_mint_addresses`, the feed `/latest` serves. */
    const latest: PersistentSet
    /** `seen_mint_addresses`, the deduplication history. */
    const seen: PersistentSet
    /** `MAX_FEED_SIZE`. */
    const maxFeedSize: nat

    constructor (latestFile: FileState, seenFile: FileState, maxFeedSize: nat)
      ensures fresh(latest) && fresh(seen) && latest != seen
      ensures latest.contents == {} && latest.disk == latestFile
      ensures seen.contents == {} && seen.disk == seenFile
      ensures this.maxFeedSize == maxFeedSize
    {
      latest := new PersistentSet(latestFile);
      seen := new PersistentSet(seenFile);
      this.maxFeedSize := maxFeedSize;
    }

    /**
     * Discard arbitrary members of the feed until it fits its bound. Which
     * member goes is unspecified (`list(set)[0]`), so nothing here says the
     * oldest one does.
     */
    method TrimFeed()
      requires latest.Persisted()
      modifies latest
      ensures latest.contents <= old(latest.contents)
      ensures |latest.contents| == Min(|old(latest.contents)|, maxFeedSize)
      ensures |old(latest.contents)| <= maxFeedSize ==> unchanged(latest)
      ensures latest.Persisted()
    {
      while |latest.contents| > maxFeedSize
        invariant latest.contents <= old(latest.contents)
        invariant |old(latest.contents)| > maxFeedSize ==> |latest.contents| >= maxFeedSize
        invariant |old(latest.contents)| <= maxFeedSize ==> unchanged(latest)
        invariant latest.Persisted()
        decreases |latest.contents|
      {
        var oldest :| oldest in latest.contents;
        latest.Discard(oldest);
      }
    }

    /**
     * The body `process_messages` runs for one message: extract an address;
     * unless the seen set has it, record it in the feed and in the seen set,
     * then trim the feed. Returns the address to announce, if any.
     */
    method ProcessMessage(message: Option<string>) returns (announce: Option<string>)
      requires latest != seen
      modifies latest, seen
      ensures var found := MintExtractor.Extract(message);
        && announce == (if found.Some? && found.value !in old(seen.contents) then found else None)
        && seen.contents == old(seen.contents) + Elems(Found(found))
      ensures announce.Some? ==>
        && latest.contents <= old(latest.contents) + {announce.value}
        && |latest.contents| == Min(|old(latest.contents) + {announce.value}|, maxFeedSize)
        && latest.Persisted() && seen.Persisted()
      ensures announce.None? ==> unchanged(latest) && unchanged(seen)
    {
      var found := MintExtractor.Extract(message);
      announce := None;
      // A present address is never empty, so `Some?` is the truthiness test.
      if found.Some? {
        var address := found.value;
        var known := seen.Contains(address);
        if !known {
          latest.Add(address);
          seen.Add(address);
          TrimFeed();
          announce := found;
        }
      }
    }

    /**
     * `process_messages`: returns the arguments `on_change` is called with,
     * in order (none when no callback is given).
     */
    method ProcessMessages(messages: seq<Option<string>>, hasCallback: bool)
      returns (calls: seq<string>)
      requires latest != seen
      modifies latest, seen
      ensures var announced := NewAddresses(Addresses(messages), old(seen.contents));
        && seen.contents == old(seen.contents) + Elems(Addresses(messages))
        && calls == (if hasCallback then announced else [])
        && FeedTracks(old(latest.contents), announced, maxFeedSize, latest.contents)
        && (announced != [] ==> latest.Persisted() && seen.Persisted())
        && (announced == [] ==> unchanged(latest) && unchanged(seen))
    {
      calls := [];
      ghost var seen0 := seen.contents;
      for i := 0 to |messages|
        invariant var announced := NewAddresses(Addresses(messages[..i]), seen0);
          && seen.contents == seen0 + Elems(Addresses(messages[..i]))
          && calls == (if hasCallback then announced else [])
          && FeedTracks(old(latest.contents), announced, maxFeedSize, latest.contents)
          && (announced != [] ==> latest.Persisted() && seen.Persisted())
          && (announced == [] ==> unchanged(latest) && unchanged(seen))
      {
        ghost var prefix := Addresses(messages[..i]);
        ghost var announced := NewAddresses(prefix, seen0);
        ghost var seenBefore, latestBefore := seen.contents, latest.contents;
        ghost var found := MintExtractor.Extract(messages[i]);
        var announce := ProcessMessage(messages[i]);
        if announce.Some? && hasCallback {
          calls := calls + [announce.value];
        }
        AddressesSnoc(messages, i);
        StepBookkeeping(seen0, prefix, found, announce, seenBefore, seen.contents);
        FeedStep(old(latest.contents), announced, announce, maxFeedSize,
                 latestBefore, latest.contents);
      }
      assert messages[..|messages|] == messages;
    }
  }

  /** The state of an `asyncio.Lock` as seen by the single task that uses it. */
  datatype LockState = Free | Held

  /**
   * Acquiring a lock: a free one becomes held. A held one makes the caller
   * wait for a release; `asyncio.Lock` is not reentrant, so when the holder is
   * the waiting task itself the wait never ends (`None`).
   */
  function Acquire(lock: LockState): (r: Option<LockState>)
    ensures r.None? <==> lock == Held
    ensures r.Some? ==> r.value == Held
  {
    if lock == Held then None else Some(Held)
  }

  /**
   * `discard` run by a task that may already hold the store's lock: take the
   * lock, remove, release, then take it again to save, and release.
   */
  function DiscardAsWritten(contents: set<string>, x: string, lock: LockState)
    : (r: Option<(set<string>, LockState)>)
    ensures r.None? <==> lock == Held
    ensures r.Some? ==> r.value.0 == contents - {x} && r.value.1 == Free
  {
    match Acquire(lock)
    case None => None
    case Some(_) =>
      match Acquire(Free)
      case None => None
      case Some(_) => Some((contents - {x}, Free))
  }

  /** The trimming loop as written, run while the caller holds `lock`. */
  ghost function TrimLoopAsWritten(contents: set<string>, maxFeedSize: nat, lock: LockState)
    : (r: Option<set<string>>)
    ensures r.None? <==> |contents| > maxFeedSize && lock == Held
    ensures r.Some? ==> r.value <= contents && |r.value| == Min(|contents|, maxFeedSize)
    decreases |contents|
  {
    if |contents| <= maxFeedSize then Some(contents)
    else
      var oldest :| oldest in contents;
      match DiscardAsWritten(contents, oldest, lock)
      case None => None
      case Some(next) =>
        assert |next.0| < |contents| by {
          assert next.0 + {oldest} == contents;
        }
        TrimLoopAsWritten(next.0, maxFeedSize, next.1)
  }

  /**
   * Trimming as written: the feed's lock is taken around the loop, and each
   * `discard` inside it takes the same lock again.
   */
  ghost function TrimAsWritten(contents: set<string>, maxFeedSize: nat): (r: Option<set<string>>)
    ensures r.None? <==> |contents| > maxFeedSize
    ensures r.Some? ==> r.value == contents
  {
    match Acquire(Free)
    case None => None
    case Some(held) => TrimLoopAsWritten(contents, maxFeedSize, held)
  }

  /** Whenever the feed is over its bound, trimming as written never returns. */
  lemma TrimAsWrittenDeadlocks(contents: set<string>, maxFeedSize: nat)
    requires |contents| > maxFeedSize
    ensures TrimAsWritten(contents, maxFeedSize).None?
  {
  }

  /** A feed within its bound passes trimming as written untouched. */
  lemma TrimAsWrittenWithinBound(contents: set<string>, maxFeedSize: nat)
    requires |contents| <= maxFeedSize
    ensures TrimAsWritten(contents, maxFeedSize) == Some(contents)
  {
  }
}
