/** The subscription list of a scroll trigger: host references, subscription
    records, the two filters the trigger runs over its list, and the facts
    about those filters that the trigger relies on. */
module Subscriptions {

  /** What a host value is, as far as the trigger asks: an HTML element
      (`instanceof HTMLElement`), a function (`typeof … === 'function'`),
      or anything else. */
  datatype Kind = HtmlElement | Function | OtherValue

  /** An opaque host value. Two references are the same object exactly when
      they are equal, which stands for the source's `===` on objects. */
  datatype HostRef = HostRef(id: nat, kind: Kind)

  /** One registered (element, callback) pair and the element's visibility
      recorded when it was registered. */
  datatype Subscription = Subscription(element: HostRef, callback: HostRef, inView: bool)

  /** The test both filters apply to an entry. */
  predicate Matches(sub: Subscription, element: HostRef, callback: HostRef) {
    sub.element == element && sub.callback == callback
  }

  /** Two entries register the same (element, callback) pair. */
  predicate SamePair(a: Subscription, b: Subscription) {
    Matches(b, a.element, a.callback)
  }

  /** Some entry of `subs` registers the pair. */
  predicate Registered(subs: seq<Subscription>, element: HostRef, callback: HostRef) {
    exists i | 0 <= i < |subs| :: Matches(subs[i], element, callback)
  }

  /** The uniqueness invariant of a trigger's list. */
  predicate NoDuplicatePairs(subs: seq<Subscription>) {
    forall i, j | 0 <= i < j < |subs| :: !SamePair(subs[i], subs[j])
  }

  /** The entries that register the pair, in list order: the filter whose
      length `isSubscribed` tests. */
  function Matching(subs: seq<Subscription>, element: HostRef, callback: HostRef): (r: seq<Subscription>)
    ensures |r| <= |subs|
    ensures forall x | x in r :: x in subs && Matches(x, element, callback)
    ensures r != [] <==> Registered(subs, element, callback)
  {
    if subs == [] then []
    else
      var rest := Matching(subs[1..], element, callback);
      assert Registered(subs[1..], element, callback) ==> Registered(subs, element, callback) by {
        if Registered(subs[1..], element, callback) {
          var i :| 0 <= i < |subs[1..]| && Matches(subs[1..][i], element, callback);
          assert Matches(subs[i + 1], element, callback);
        }
      }
      assert Registered(subs, element, callback) && !Matches(subs[0], element, callback)
        ==> Registered(subs[1..], element, callback) by {
        if Registered(subs, element, callback) && !Matches(subs[0], element, callback) {
          var i :| 0 <= i < |subs| && Matches(subs[i], element, callback);
          assert i != 0 && Matches(subs[1..][i - 1], element, callback);
        }
      }
      (if Matches(subs[0], element, callback) then [subs[0]] else []) + rest
  }

  /** The entries that do not register the pair, in list order: the filter
      `unsubscribe` keeps. No entry of the result registers the pair, and the
      list never grows; `WithoutMembers` and `WithoutAppend` say which entries
      stay and in what order. */
  function Without(subs: seq<Subscription>, element: HostRef, callback: HostRef): (r: seq<Subscription>)
    ensures |r| <= |subs|
    ensures forall k | 0 <= k < |r| :: !Matches(r[k], element, callback)
  {
    if subs == [] then []
    else (if Matches(subs[0], element, callback) then [] else [subs[0]]) + Without(subs[1..], element, callback)
  }

  /** The filter keeps exactly the entries that do not register the pair. */
  lemma {:induction false} WithoutMembers(subs: seq<Subscription>, element: HostRef, callback: HostRef)
    ensures forall x :: x in Without(subs, element, callback) <==> x in subs && !Matches(x, element, callback)
  {
    if subs != [] {
      WithoutMembers(subs[1..], element, callback);
      assert forall x :: x in subs <==> x == subs[0] || x in subs[1..];
    }
  }

  /** One step of the filter: the first entry is kept exactly when it does
      not register the pair. */
  lemma WithoutCons(x: Subscription, t: seq<Subscription>, element: HostRef, callback: HostRef)
    ensures Without([x] + t, element, callback)
         == (if Matches(x, element, callback) then [] else [x]) + Without(t, element, callback)
  {
    assert ([x] + t)[0] == x && ([x] + t)[1..] == t;
  }

  /** `Without` distributes over concatenation: it only drops entries and
      never reorders the ones it keeps. */
  lemma {:induction false} WithoutAppend(a: seq<Subscription>, b: seq<Subscription>, element: HostRef, callback: HostRef)
    ensures Without(a + b, element, callback) == Without(a, element, callback) + Without(b, element, callback)
  {
    if a == [] {
      assert a + b == b;
    } else {
      var x, t := a[0], a[1..];
      assert a == [x] + t;
      assert a + b == [x] + (t + b);
      WithoutCons(x, t, element, callback);
      WithoutCons(x, t + b, element, callback);
      WithoutAppend(t, b, element, callback);
    }
  }

  /** A list that does not register the pair is left exactly as it is. */
  lemma {:induction false} WithoutUnregistered(subs: seq<Subscription>, element: HostRef, callback: HostRef)
    requires !Registered(subs, element, callback)
    ensures Without(subs, element, callback) == subs
  {
    if subs != [] {
      assert !Matches(subs[0], element, callback);
      forall i | 0 <= i < |subs[1..]| ensures !Matches(subs[1..][i], element, callback) {
        assert subs[1..][i] == subs[i + 1];
      }
      WithoutUnregistered(subs[1..], element, callback);
      assert subs == [subs[0]] + subs[1..];
    }
  }

  /** After the filter no entry registers the pair, so filtering again
      changes nothing. */
  lemma WithoutIdempotent(subs: seq<Subscription>, element: HostRef, callback: HostRef)
    ensures !Registered(Without(subs, element, callback), element, callback)
    ensures Without(Without(subs, element, callback), element, callback) == Without(subs, element, callback)
  {
    var r := Without(subs, element, callback);
    WithoutMembers(subs, element, callback);
    forall i | 0 <= i < |r| ensures !Matches(r[i], element, callback) {
      assert r[i] in r;
    }
    WithoutUnregistered(r, element, callback);
  }

  /** The uniqueness invariant read off a list with a given first entry. */
  lemma NoDuplicatePairsCons(x: Subscription, t: seq<Subscription>)
    ensures NoDuplicatePairs([x] + t) <==> NoDuplicatePairs(t) && !Registered(t, x.element, x.callback)
  {
    var s := [x] + t;
    if NoDuplicatePairs(s) {
      forall i, j | 0 <= i < j < |t| ensures !SamePair(t[i], t[j]) {
        assert t[i] == s[i + 1] && t[j] == s[j + 1];
      }
      forall j | 0 <= j < |t| ensures !Matches(t[j], x.element, x.callback) {
        assert !SamePair(s[0], s[j + 1]);
      }
    }
    if NoDuplicatePairs(t) && !Registered(t, x.element, x.callback) {
      forall i, j | 0 <= i < j < |s| ensures !SamePair(s[i], s[j]) {
        if i == 0 {
          assert s[j] == t[j - 1];
        } else {
          assert s[i] == t[i - 1] && s[j] == t[j - 1];
        }
      }
    }
  }

  /** Filtering keeps the uniqueness invariant. */
  lemma {:induction false} WithoutKeepsNoDuplicates(subs: seq<Subscription>, element: HostRef, callback: HostRef)
    requires NoDuplicatePairs(subs)
    ensures NoDuplicatePairs(Without(subs, element, callback))
  {
    if subs != [] {
      var x, t := subs[0], subs[1..];
      assert subs == [x] + t;
      NoDuplicatePairsCons(x, t);
      WithoutKeepsNoDuplicates(t, element, callback);
      var rest := Without(t, element, callback);
      WithoutMembers(t, element, callback);
      if !Matches(x, element, callback) {
        forall j | 0 <= j < |rest| ensures !Matches(rest[j], x.element, x.callback) {
          assert rest[j] in rest;
          var k :| 0 <= k < |t| && t[k] == rest[j];
        }
        NoDuplicatePairsCons(x, rest);
      }
    }
  }

  /** Under the uniqueness invariant at most one entry registers a pair. */
  lemma {:induction false} MatchingAtMostOne(subs: seq<Subscription>, element: HostRef, callback: HostRef)
    requires NoDuplicatePairs(subs)
    ensures |Matching(subs, element, callback)| <= 1
  {
    if subs != [] {
      var x, t := subs[0], subs[1..];
      assert subs == [x] + t;
      NoDuplicatePairsCons(x, t);
      MatchingAtMostOne(t, element, callback);
      if Matches(x, element, callback) {
        assert !Registered(t, element, callback);
      }
    }
  }

  /** The two filters split the list: every entry lands in exactly one. */
  lemma {:induction false} FiltersPartition(subs: seq<Subscription>, element: HostRef, callback: HostRef)
    ensures |Without(subs, element, callback)| + |Matching(subs, element, callback)| == |subs|
  {
    if subs != [] {
      FiltersPartition(subs[1..], element, callback);
    }
  }

  /** Under the uniqueness invariant, filtering out a registered pair removes
      exactly one entry, and filtering out an unregistered pair none. */
  lemma WithoutRemovesOne(subs: seq<Subscription>, element: HostRef, callback: HostRef)
    requires NoDuplicatePairs(subs)
    ensures |Without(subs, element, callback)| == if Registered(subs, element, callback) then |subs| - 1 else |subs|
  {
    MatchingAtMostOne(subs, element, callback);
    FiltersPartition(subs, element, callback);
  }

  /** Appending an entry for an unregistered pair keeps the uniqueness
      invariant. */
  lemma AppendKeepsNoDuplicates(subs: seq<Subscription>, x: Subscription)
    requires NoDuplicatePairs(subs)
    requires !Registered(subs, x.element, x.callback)
    ensures NoDuplicatePairs(subs + [x])
  {
    var s := subs + [x];
    forall i, j | 0 <= i < j < |s| ensures !SamePair(s[i], s[j]) {
      if j == |subs| {
        assert !Matches(subs[i], x.element, x.callback);
      }
    }
  }

  /** Removing the pair of the last entry, when no earlier entry has that
      pair, gives back the list before it was appended. */
  lemma WithoutLastAppended(subs: seq<Subscription>, x: Subscription)
    requires !Registered(subs, x.element, x.callback)
    ensures Without(subs + [x], x.element, x.callback) == subs
  {
    WithoutAppend(subs, [x], x.element, x.callback);
    WithoutUnregistered(subs, x.element, x.callback);
    assert Without([x], x.element, x.callback) == [];
  }
}
