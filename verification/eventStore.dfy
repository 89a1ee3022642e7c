/** Badger as a key-ordered sequence of entries, and the event log kept in it. */
module EventStore {
  import opened Text
  import opened Events

  // ---------- the database ----------

  /** What a key maps to: a stored event, or bytes of another component of the node. */
  datatype Blob = EventBlob(event: Event) | OtherBlob

  datatype Entry = Entry(key: string, blob: Blob)

  ghost predicate Sorted(db: seq<Entry>) {
    forall i, j :: 0 <= i < j < |db| ==> Less(db[i].key, db[j].key)
  }

  /** Writes one key of a database that iterates in key order. */
  function Set(db: seq<Entry>, key: string, blob: Blob): seq<Entry> {
    if db == [] then [Entry(key, blob)]
    else if Less(db[0].key, key) then [db[0]] + Set(db[1..], key, blob)
    else if db[0].key == key then [Entry(key, blob)] + db[1..]
    else [Entry(key, blob)] + db
  }

  lemma {:induction false} SetKeys(db: seq<Entry>, key: string, blob: Blob)
    ensures forall e :: e in Set(db, key, blob) ==> e == Entry(key, blob) || e in db
  {
    if db != [] && Less(db[0].key, key) { SetKeys(db[1..], key, blob); }
  }

  lemma {:induction false} SetKeepsOrder(db: seq<Entry>, key: string, blob: Blob)
    requires Sorted(db)
    ensures Sorted(Set(db, key, blob))
  {
    if db != [] {
      var rest := Set(db[1..], key, blob);
      if Less(db[0].key, key) {
        SetKeepsOrder(db[1..], key, blob);
        SetKeys(db[1..], key, blob);
        forall j | 0 <= j < |rest| ensures Less(db[0].key, rest[j].key) {
          assert rest[j] in rest;
          assert forall e :: e in db[1..] ==> exists k :: 1 <= k < |db| && db[k] == e;
        }
      } else if db[0].key != key {
        LessTotal(db[0].key, key);
        forall j | 0 <= j < |db| ensures Less(key, db[j].key) {
          if j > 0 { LessTransitive(key, db[0].key, db[j].key); }
        }
      }
    }
  }

  /** A write puts its entry in, takes the place of one with its key, and leaves every other entry alone. */
  lemma {:induction false} SetHolds(db: seq<Entry>, key: string, blob: Blob, x: Entry)
    requires Sorted(db)
    ensures x in Set(db, key, blob) <==> x == Entry(key, blob) || (x in db && x.key != key)
  {
    if db != [] {
      var rest := db[1..];
      assert db == [db[0]] + rest;
      LessIrreflexive(key);
      if Less(db[0].key, key) {
        SetHolds(rest, key, blob, x);
      } else {
        LessTotal(db[0].key, key);
        if x in rest { FurtherOnIsGreater(db, key, x); }
      }
    }
  }

  lemma FurtherOnIsGreater(db: seq<Entry>, key: string, x: Entry)
    requires Sorted(db) && db != [] && x in db[1..] && AtMost(key, db[0].key)
    ensures x.key != key
  {
    var j :| 0 <= j < |db[1..]| && db[1..][j] == x;
    assert db[j + 1] == x && Less(db[0].key, x.key);
    if key != db[0].key { LessTransitive(key, db[0].key, x.key); }
    LessIrreflexive(key);
  }

  // ---------- keys ----------

  const EVENT_PREFIX := "eventsByTimestamp_"

  function InsertAt(s: string, at: nat, sep: string): string
    requires at <= |s|
  {
    s[..at] + sep + s[at..]
  }

  lemma InsertAtKeepsOrder(a: string, b: string, at: nat, sep: string)
    requires |a| == |b| && at <= |a|
    ensures Less(InsertAt(a, at, sep), InsertAt(b, at, sep)) <==> Less(a, b)
    ensures InsertAt(a, at, sep) == InsertAt(b, at, sep) <==> a == b
  {
    var a', b' := InsertAt(a, at, sep), InsertAt(b, at, sep);
    LessAppend(a[..at], b[..at], a[at..], b[at..]);
    LessAppend(a[..at] + sep, b[..at] + sep, a[at..], b[at..]);
    LessAppend(a[..at], b[..at], sep, sep);
    LessIrreflexive(sep);
    assert a == a[..at] + a[at..] && b == b[..at] + b[at..];
    assert a'[..at] == a[..at] && b'[..at] == b[..at];
    assert a'[at + |sep|..] == a[at..] && b'[at + |sep|..] == b[at..];
    assert a'[..at + |sep|] == a[..at] + sep && b'[..at + |sep|] == b[..at] + sep;
  }

  datatype Separator = Separator(at: nat, text: char)

  /** The separators of 2006-01-02T15:04:05.000000000Z, from the right. */
  const SEPARATORS: seq<Separator> :=
    [Separator(14, '.'), Separator(12, ':'), Separator(10, ':'), Separator(8, 'T'), Separator(6, '-'), Separator(4, '-')]

  function InsertAll(s: string, separators: seq<Separator>): (r: string)
    requires forall i :: 0 <= i < |separators| ==> separators[i].at <= |s|
    ensures |r| == |s| + |separators|
    decreases |separators|
  {
    if separators == [] then s
    else InsertAll(InsertAt(s, separators[0].at, [separators[0].text]), separators[1..])
  }

  lemma {:induction false} InsertAllKeepsOrder(a: string, b: string, separators: seq<Separator>)
    requires |a| == |b| && forall i :: 0 <= i < |separators| ==> separators[i].at <= |a|
    ensures Less(InsertAll(a, separators), InsertAll(b, separators)) <==> Less(a, b)
    ensures InsertAll(a, separators) == InsertAll(b, separators) <==> a == b
    decreases |separators|
  {
    if separators != [] {
      var at, sep := separators[0].at, [separators[0].text];
      InsertAtKeepsOrder(a, b, at, sep);
      InsertAllKeepsOrder(InsertAt(a, at, sep), InsertAt(b, at, sep), separators[1..]);
    }
  }

  /** RFC 3339 with nanoseconds, in UTC. */
  function FormatTimestamp(t: Timestamp): (s: string)
    ensures |s| == 30
  {
    InsertAll(Digits(t, 23), SEPARATORS) + "Z"
  }

  function EventKey(t: Timestamp): (k: string)
    ensures EVENT_PREFIX <= k
  {
    EVENT_PREFIX + FormatTimestamp(t)
  }

  lemma TenTimes(a: nat, p: nat, b: nat)
    ensures (a * (10 * p) + b) / 10 == a * p + b / 10 && (a * (10 * p) + b) % 10 == b % 10
  {
    var m := a * p;
    assert a * (10 * p) == 10 * m;
    assert (10 * m + b) / 10 == m + b / 10;
  }

  /** The digits of two numbers side by side. */
  lemma {:induction false} DigitsOfBoth(a: nat, b: nat, v: nat, w: nat)
    requires b < Pow10(w)
    ensures Digits(a * Pow10(w) + b, v + w) == Digits(a, v) + Digits(b, w)
  {
    if w == 0 {
      assert Digits(a, v) + "" == Digits(a, v);
    } else {
      TenTimes(a, Pow10(w - 1), b);
      DigitsOfBoth(a, b / 10, v, w - 1);
      var (x, y, d) := (Digits(a, v), Digits(b / 10, w - 1), [Digit(b % 10)]);
      assert x + (y + d) == x + y + d;
    }
  }

  /** Year, month, day, hour, minute, second and nanoseconds: the digits of each. */
  const WIDTHS: seq<nat> := [4, 2, 2, 2, 2, 2, 9]
  const LAYOUT := "--T::."

  ghost predicate Fit(parts: seq<nat>, widths: seq<nat>) {
    |parts| == |widths| && forall i :: 0 <= i < |parts| ==> parts[i] < Pow10(widths[i])
  }

  /** The number that the parts, each in its width, spell one after the other. */
  function Instant(parts: seq<nat>, widths: seq<nat>): nat
    requires |parts| == |widths|
  {
    if parts == [] then 0
    else
      var n := |parts| - 1;
      Instant(parts[..n], widths[..n]) * Pow10(widths[n]) + parts[n]
  }

  function Total(widths: seq<nat>): nat {
    if widths == [] then 0 else Total(widths[..|widths| - 1]) + widths[|widths| - 1]
  }

  /** The digits of the parts, one after the other. */
  function Spelled(parts: seq<nat>, widths: seq<nat>): (s: string)
    requires |parts| == |widths|
    ensures |s| == Total(widths)
  {
    if parts == [] then ""
    else
      var n := |parts| - 1;
      Spelled(parts[..n], widths[..n]) + Digits(parts[n], widths[n])
  }

  /** And with these characters between them. */
  function Joined(parts: seq<nat>, widths: seq<nat>, between: string): string
    requires |parts| == |widths| == |between| + 1
    decreases |parts|
  {
    var n := |between|;
    if n == 0 then Digits(parts[0], widths[0])
    else Joined(parts[..n], widths[..n], between[..n - 1]) + [between[n - 1]] + Digits(parts[n], widths[n])
  }

  /** Where these characters go, from the right. */
  function Separators(widths: seq<nat>, between: string): seq<Separator>
    requires |widths| == |between| + 1
    decreases |widths|
  {
    var n := |between|;
    if n == 0 then []
    else [Separator(Total(widths[..n]), between[n - 1])] + Separators(widths[..n], between[..n - 1])
  }

  lemma {:induction false} DigitsOfParts(parts: seq<nat>, widths: seq<nat>)
    requires Fit(parts, widths)
    ensures Digits(Instant(parts, widths), Total(widths)) == Spelled(parts, widths)
    decreases |parts|
  {
    if parts != [] {
      var n := |parts| - 1;
      DigitsOfParts(parts[..n], widths[..n]);
      DigitsOfBoth(Instant(parts[..n], widths[..n]), parts[n], Total(widths[..n]), widths[n]);
    }
  }

  lemma {:induction false} SeparatorsFit(widths: seq<nat>, between: string, length: nat)
    requires |widths| == |between| + 1 && Total(widths) <= length
    ensures forall i :: 0 <= i < |Separators(widths, between)| ==> Separators(widths, between)[i].at <= length
    decreases |widths|
  {
    var n := |between|;
    if n > 0 { SeparatorsFit(widths[..n], between[..n - 1], length); }
  }

  lemma InsertBetween(p: string, q: string, sep: string)
    ensures InsertAt(p + q, |p|, sep) == p + (sep + q)
  {
    assert (p + q)[..|p|] == p && (p + q)[|p|..] == q;
  }

  lemma Reassociated(a: string, b: string, c: string)
    ensures a + b + c == a + (b + c)
  {
  }

  lemma {:induction false} InsertAllJoins(parts: seq<nat>, widths: seq<nat>, between: string, rest: string)
    requires |parts| == |widths| == |between| + 1
    ensures var s := Spelled(parts, widths) + rest;
      && (forall i :: 0 <= i < |Separators(widths, between)| ==> Separators(widths, between)[i].at <= |s|)
      && InsertAll(s, Separators(widths, between)) == Joined(parts, widths, between) + rest
    decreases |parts|
  {
    var n := |between|;
    SeparatorsFit(widths, between, |Spelled(parts, widths) + rest|);
    if n == 0 {
      assert Spelled(parts[..0], widths[..0]) == "" && "" + Digits(parts[0], widths[0]) == Digits(parts[0], widths[0]);
    } else {
      var front, last, sep := Spelled(parts[..n], widths[..n]), Digits(parts[n], widths[n]), [between[n - 1]];
      Reassociated(front, last, rest);
      InsertBetween(front, last + rest, sep);
      InsertAllJoins(parts[..n], widths[..n], between[..n - 1], sep + (last + rest));
      Reassociated(Joined(parts[..n], widths[..n], between[..n - 1]) + sep, last, rest);
      Reassociated(Joined(parts[..n], widths[..n], between[..n - 1]), sep, last + rest);
    }
  }

  lemma SeparatorsAre()
    ensures Separators(WIDTHS, LAYOUT) == SEPARATORS && Total(WIDTHS) == 23
  {
    forall k, i | 0 <= i <= k <= 7 ensures WIDTHS[..k][..i] == WIDTHS[..i] { }
    forall k | 0 <= k < 7 ensures Total(WIDTHS[..k + 1]) == Total(WIDTHS[..k]) + WIDTHS[k] { }
    assert WIDTHS[..0] == [] && Total(WIDTHS[..1]) == 4 && Total(WIDTHS[..2]) == 6 && Total(WIDTHS[..3]) == 8;
    assert Total(WIDTHS[..4]) == 10 && Total(WIDTHS[..5]) == 12 && Total(WIDTHS[..6]) == 14;
    assert WIDTHS[..7] == WIDTHS;
    forall k, i | 0 <= i <= k <= 6 ensures LAYOUT[..k][..i] == LAYOUT[..i] { }
    assert Separators(WIDTHS[..2], LAYOUT[..1]) == SEPARATORS[5..];
    assert Separators(WIDTHS[..3], LAYOUT[..2]) == SEPARATORS[4..];
    assert Separators(WIDTHS[..4], LAYOUT[..3]) == SEPARATORS[3..];
    assert Separators(WIDTHS[..5], LAYOUT[..4]) == SEPARATORS[2..];
    assert Separators(WIDTHS[..6], LAYOUT[..5]) == SEPARATORS[1..];
    assert LAYOUT[..6] == LAYOUT;
  }

  /** An event's key is the prefix and its date and time, spelled in this layout. */
  lemma KeyIsDate(t: Timestamp, parts: seq<nat>)
    requires Fit(parts, WIDTHS) && t == Instant(parts, WIDTHS)
    ensures EventKey(t) == "eventsByTimestamp_" + (Joined(parts, WIDTHS, "--T::.") + "Z")
  {
    SeparatorsAre();
    DigitsOfParts(parts, WIDTHS);
    InsertAllJoins(parts, WIDTHS, LAYOUT, "");
    assert Spelled(parts, WIDTHS) + "" == Spelled(parts, WIDTHS);
    assert Joined(parts, WIDTHS, LAYOUT) + "" == Joined(parts, WIDTHS, LAYOUT);
  }

  /** With no Since the listing seeks the first instant of year 1. */
  lemma ZeroTimeIsYearOne()
    ensures ZERO_TIME == Instant([1, 1, 1, 0, 0, 0, 0], WIDTHS)
  {
    var parts := [1, 1, 1, 0, 0, 0, 0];
    forall k, i | 0 <= i <= k <= 7 ensures WIDTHS[..k][..i] == WIDTHS[..i] && parts[..k][..i] == parts[..i] { }
    assert parts[..7] == parts && WIDTHS[..7] == WIDTHS && Pow10(2) == 100 && Pow10(9) == 1_000_000_000;
    assert Instant(parts[..1], WIDTHS[..1]) == 1 && Instant(parts[..2], WIDTHS[..2]) == 101 && Instant(parts[..3], WIDTHS[..3]) == 10_101;
    assert Instant(parts[..4], WIDTHS[..4]) == 1_010_100 && Instant(parts[..5], WIDTHS[..5]) == 101_010_000;
  }

  lemma Pow10Of23()
    ensures Pow10(23) == 100_000_000_000_000_000_000_000
  {
    assert Pow10(6) == 1_000_000;
    assert Pow10(12) == 1_000_000_000_000;
    assert Pow10(18) == 1_000_000_000_000_000_000;
  }

  lemma FormatOrder(a: Timestamp, b: Timestamp)
    ensures Less(FormatTimestamp(a), FormatTimestamp(b)) <==> Less(Digits(a, 23), Digits(b, 23))
    ensures FormatTimestamp(a) == FormatTimestamp(b) <==> Digits(a, 23) == Digits(b, 23)
  {
    var a', b' := InsertAll(Digits(a, 23), SEPARATORS), InsertAll(Digits(b, 23), SEPARATORS);
    InsertAllKeepsOrder(Digits(a, 23), Digits(b, 23), SEPARATORS);
    LessAppend(a', b', "Z", "Z");
    LessIrreflexive("Z");
    assert (a' + "Z")[..29] == a' && (b' + "Z")[..29] == b';
  }

  lemma PrefixedOrder(p: string, a: string, b: string)
    ensures Less(p + a, p + b) <==> Less(a, b)
    ensures p + a == p + b <==> a == b
  {
    LessAppend(p, p, a, b);
    LessIrreflexive(p);
    assert (p + a)[|p|..] == a && (p + b)[|p|..] == b;
  }

  /** Keys order as their instants do, and two instants never share a key. */
  lemma EventKeyOrder(a: Timestamp, b: Timestamp)
    ensures Less(EventKey(a), EventKey(b)) <==> a < b
    ensures EventKey(a) == EventKey(b) <==> a == b
  {
    Pow10Of23();
    DigitsOrder(a, b, 23);
    FormatOrder(a, b);
    PrefixedOrder(EVENT_PREFIX, FormatTimestamp(a), FormatTimestamp(b));
  }

  /** The seek key of a Since that is given in some zone: `local` is its wall-clock time there. */
  function ZonedKey(local: Timestamp, zone: string): string {
    EVENT_PREFIX + (InsertAll(Digits(local, 23), SEPARATORS) + zone)
  }

  predicate IsZone(zone: string) {
    zone == "Z" || (zone != "" && (zone[0] == '+' || zone[0] == '-'))
  }

  /** The seek compares stored instants with the wall-clock time, as if that were UTC. */
  lemma ZonedSeek(t: Timestamp, local: Timestamp, zone: string)
    requires IsZone(zone)
    ensures Less(EventKey(t), ZonedKey(local, zone)) <==> t < local
  {
    var a, b := InsertAll(Digits(t, 23), SEPARATORS), InsertAll(Digits(local, 23), SEPARATORS);
    Pow10Of23();
    DigitsOrder(t, local, 23);
    InsertAllKeepsOrder(Digits(t, 23), Digits(local, 23), SEPARATORS);
    LessIrreflexive("Z");
    LessAppend(a, b, "Z", zone);
    PrefixedOrder(EVENT_PREFIX, a + "Z", b + zone);
  }

  /** So it finds exactly the events at or after Since if the zone's wall-clock time is that of UTC, and in no other. */
  lemma SeekIsRightIffUtc(since: Timestamp, local: Timestamp, zone: string)
    requires IsZone(zone)
    ensures (forall t: Timestamp :: !Less(EventKey(t), ZonedKey(local, zone)) <==> since <= t) <==> local == since
  {
    forall t: Timestamp ensures !Less(EventKey(t), ZonedKey(local, zone)) <==> local <= t { ZonedSeek(t, local, zone); }
    if local != since {
      var t: Timestamp := if local < since then local else since;
      assert !Less(EventKey(t), ZonedKey(local, zone)) <==> local <= t;
    }
  }

  // ---------- the log ----------

  /** Every event sits under the key of its own instant, and nothing else has the event prefix. */
  ghost predicate WellKeyed(db: seq<Entry>) {
    forall i :: 0 <= i < |db| && EVENT_PREFIX <= db[i].key ==>
      db[i].blob.EventBlob? && db[i].key == EventKey(db[i].blob.event.timestamp)
  }

  /** The stored events, in key order. */
  function Log(db: seq<Entry>): seq<Event>
    requires WellKeyed(db)
  {
    if db == [] then []
    else if EVENT_PREFIX <= db[0].key then [db[0].blob.event] + Log(db[1..])
    else Log(db[1..])
  }

  ghost predicate Chronological(log: seq<Event>) {
    forall i, j :: 0 <= i < j < |log| ==> log[i].timestamp < log[j].timestamp
  }

  /** What recording `e` does to a chronological log: an event of the same instant is replaced. */
  function Record(log: seq<Event>, e: Event): seq<Event> {
    if log == [] then [e]
    else if log[0].timestamp < e.timestamp then [log[0]] + Record(log[1..], e)
    else if log[0].timestamp == e.timestamp then [e] + log[1..]
    else [e] + log
  }

  /** The events a subscription gets from the log. */
  function Replay(log: seq<Event>, filter: EventFilter): seq<Event> {
    if log == [] then []
    else if Replayable(log[0], filter) then [log[0]] + Replay(log[1..], filter)
    else Replay(log[1..], filter)
  }

  ghost predicate StoredAt(db: seq<Entry>, e: Event, i: nat)
    requires WellKeyed(db)
  {
    i < |db| && EVENT_PREFIX <= db[i].key && db[i].blob.event == e
  }

  lemma {:induction false} LogMembers(db: seq<Entry>, e: Event)
    requires WellKeyed(db)
    ensures e in Log(db) <==> exists i :: StoredAt(db, e, i)
  {
    if db != [] {
      LogMembers(db[1..], e);
      if i: nat :| StoredAt(db[1..], e, i) { assert StoredAt(db, e, i + 1); }
      if i: nat :| StoredAt(db, e, i) {
        if i > 0 { assert StoredAt(db[1..], e, i - 1); }
      }
      if EVENT_PREFIX <= db[0].key && db[0].blob.event == e { assert StoredAt(db, e, 0); }
    }
  }

  /** Key order is time order, so the log is read chronologically and holds one event an instant. */
  lemma {:induction false} LogIsChronological(db: seq<Entry>)
    requires Sorted(db) && WellKeyed(db)
    ensures Chronological(Log(db))
  {
    if db != [] {
      var rest := Log(db[1..]);
      LogIsChronological(db[1..]);
      if EVENT_PREFIX <= db[0].key {
        forall j | 0 <= j < |rest| ensures db[0].blob.event.timestamp < rest[j].timestamp {
          LogMembers(db[1..], rest[j]);
          assert rest[j] in rest;
          var i: nat :| StoredAt(db[1..], rest[j], i);
          assert db[i + 1] == db[1..][i];
          EventKeyOrder(db[0].blob.event.timestamp, rest[j].timestamp);
        }
      }
    }
  }

  lemma LogOfCons(x: Entry, rest: seq<Entry>)
    requires WellKeyed(rest) && (EVENT_PREFIX <= x.key ==> x.blob.EventBlob? && x.key == EventKey(x.blob.event.timestamp))
    ensures WellKeyed([x] + rest)
    ensures Log([x] + rest) == if EVENT_PREFIX <= x.key then [x.blob.event] + Log(rest) else Log(rest)
  {
    assert ([x] + rest)[1..] == rest;
  }

  /** With every key after an event's, every stored event is after it. */
  lemma LogComesAfter(db: seq<Entry>, t: Timestamp)
    requires Sorted(db) && WellKeyed(db) && (db != [] ==> Less(EventKey(t), db[0].key))
    ensures Log(db) != [] ==> t < Log(db)[0].timestamp
  {
    if Log(db) != [] {
      LogMembers(db, Log(db)[0]);
      assert Log(db)[0] in Log(db);
      var i: nat :| StoredAt(db, Log(db)[0], i);
      if i > 0 { LessTransitive(EventKey(t), db[0].key, db[i].key); }
      EventKeyOrder(t, Log(db)[0].timestamp);
    }
  }

  /** Writing an event's key in the database is recording the event in the log. */
  lemma {:induction false} SetRecords(db: seq<Entry>, e: Event)
    requires Sorted(db) && WellKeyed(db)
    ensures WellKeyed(Set(db, EventKey(e.timestamp), EventBlob(e)))
    ensures Log(Set(db, EventKey(e.timestamp), EventBlob(e))) == Record(Log(db), e)
  {
    var key := EventKey(e.timestamp);
    if db == [] {
      LogOfCons(Entry(key, EventBlob(e)), []);
      assert [Entry(key, EventBlob(e))] + [] == [Entry(key, EventBlob(e))];
    } else if Less(db[0].key, key) {
      SetRecords(db[1..], e);
      SetFurtherOn(db, e);
    } else if db[0].key == key {
      SetHere(db, e);
    } else {
      LessTotal(db[0].key, key);
      LogOfCons(Entry(key, EventBlob(e)), db);
      LogComesAfter(db, e.timestamp);
    }
  }

  lemma SetHere(db: seq<Entry>, e: Event)
    requires WellKeyed(db) && db != [] && db[0].key == EventKey(e.timestamp)
    ensures WellKeyed([Entry(db[0].key, EventBlob(e))] + db[1..])
    ensures Log([Entry(db[0].key, EventBlob(e))] + db[1..]) == Record(Log(db), e)
  {
    LogOfCons(Entry(db[0].key, EventBlob(e)), db[1..]);
    EventKeyOrder(db[0].blob.event.timestamp, e.timestamp);
    assert Log(db)[1..] == Log(db[1..]);
  }

  lemma SetFurtherOn(db: seq<Entry>, e: Event)
    requires WellKeyed(db) && db != [] && Less(db[0].key, EventKey(e.timestamp))
    requires WellKeyed(Set(db[1..], EventKey(e.timestamp), EventBlob(e)))
    requires Log(Set(db[1..], EventKey(e.timestamp), EventBlob(e))) == Record(Log(db[1..]), e)
    ensures WellKeyed(Set(db, EventKey(e.timestamp), EventBlob(e)))
    ensures Log(Set(db, EventKey(e.timestamp), EventBlob(e))) == Record(Log(db), e)
  {
    LogOfCons(db[0], Set(db[1..], EventKey(e.timestamp), EventBlob(e)));
    if EVENT_PREFIX <= db[0].key {
      EventKeyOrder(db[0].blob.event.timestamp, e.timestamp);
      RecordLater(db[0].blob.event, Log(db[1..]), e);
    }
  }

  lemma RecordLater(first: Event, rest: seq<Event>, e: Event)
    requires first.timestamp < e.timestamp
    ensures Record([first] + rest, e) == [first] + Record(rest, e)
  {
    assert ([first] + rest)[1..] == rest;
  }

  lemma {:induction false} SetKeepsWellKeyed(db: seq<Entry>, key: string, blob: Blob)
    requires WellKeyed(db) && !(EVENT_PREFIX <= key)
    ensures WellKeyed(Set(db, key, blob))
  {
    SetKeys(db, key, blob);
    var after := Set(db, key, blob);
    forall i | 0 <= i < |after| && EVENT_PREFIX <= after[i].key
      ensures after[i].blob.EventBlob? && after[i].key == EventKey(after[i].blob.event.timestamp)
    {
      assert after[i] in after;
      var k :| 0 <= k < |db| && db[k] == after[i];
    }
  }

  lemma {:induction false} ReplayMembers(log: seq<Event>, filter: EventFilter)
    ensures forall e :: e in Replay(log, filter) <==> e in log && Replayable(e, filter)
  {
    if log != [] {
      ReplayMembers(log[1..], filter);
      assert log == [log[0]] + log[1..];
    }
  }

  /** For each kind of event: a logged one is replayed exactly if it is at or after Since, if there is one, and its root
      is among the filter's, if there are any. */
  lemma ReplayedByKind(log: seq<Event>, filter: EventFilter, t: Timestamp, x: Particulars, k: nat)
    requires k < 7
    ensures var (payload, root) := Kinds(x)[k];
      Event(t, payload) in Replay(log, filter) <==>
        && Event(t, payload) in log
        && (if filter.since.Some? then filter.since.value <= t else Instant([1, 1, 1, 0, 0, 0, 0], WIDTHS) <= t)
        && (filter.roots.Some? ==> root in filter.roots.value)
  {
    ReplayMembers(log, filter);
    ZeroTimeIsYearOne();
  }

  lemma {:induction false} ReplayIsChronological(log: seq<Event>, filter: EventFilter)
    requires Chronological(log)
    ensures Chronological(Replay(log, filter))
  {
    if log != [] {
      ReplayIsChronological(log[1..], filter);
      ReplayMembers(log[1..], filter);
      var rest := Replay(log[1..], filter);
      forall j | 0 <= j < |rest| ensures log[0].timestamp < rest[j].timestamp {
        assert rest[j] in rest;
        var i :| 0 <= i < |log[1..]| && log[1..][i] == rest[j];
        assert log[i + 1] == rest[j];
      }
    }
  }

  lemma {:induction false} RecordMembers(log: seq<Event>, e: Event, x: Event)
    requires Chronological(log)
    ensures x in Record(log, e) <==> x == e || (x in log && x.timestamp != e.timestamp)
  {
    if log != [] {
      var rest := log[1..];
      RecordMembers(rest, e, x);
      assert log == [log[0]] + rest;
      if x in rest {
        var i :| 0 <= i < |rest| && rest[i] == x;
        assert log[i + 1] == x;
      }
    }
  }

  lemma {:induction false} RecordKeepsOrder(log: seq<Event>, e: Event)
    requires Chronological(log)
    ensures Chronological(Record(log, e))
  {
    if log != [] && log[0].timestamp < e.timestamp {
      var after := Record(log[1..], e);
      RecordKeepsOrder(log[1..], e);
      forall i | 0 <= i < |after| ensures log[0].timestamp < after[i].timestamp {
        RecordMembers(log[1..], e, after[i]);
        assert after[i] in after;
      }
    }
  }

  /** The store: `entries` is the node's whole database, shared with other components. */
  class Store {
    var entries: seq<Entry>

    ghost predicate Valid()
      reads this
    {
      Sorted(entries) && WellKeyed(entries)
    }

    constructor ()
      ensures Valid() && Log(entries) == []
    {
      entries := [];
    }

    /** Another component writes one of its keys. */
    method SetOther(key: string)
      requires Valid() && !(EVENT_PREFIX <= key)
      modifies this
      ensures Valid() && entries == Set(old(entries), key, OtherBlob)
    {
      SetKeepsOrder(entries, key, OtherBlob);
      SetKeepsWellKeyed(entries, key, OtherBlob);
      entries := Set(entries, key, OtherBlob);
    }

    method Add(e: Event)
      requires Valid()
      modifies this
      ensures Valid() && Log(entries) == Record(old(Log(entries)), e)
    {
      SetKeepsOrder(entries, EventKey(e.timestamp), EventBlob(e));
      SetRecords(entries, e);
      entries := Set(entries, EventKey(e.timestamp), EventBlob(e));
    }

    method List(filter: EventFilter) returns (sent: seq<Event>)
      requires Valid()
      ensures sent == Replay(Log(entries), filter)
    {
      sent := Scan(entries, filter);
    }
  }

  /** Seeks the first key at or after Since, then sends while keys have the event prefix.
      `db` is the snapshot that the read transaction sees. */
  method Scan(db: seq<Entry>, filter: EventFilter) returns (sent: seq<Event>)
    requires Sorted(db) && WellKeyed(db)
    ensures sent == Replay(Log(db), filter)
  {
    var first := SeekKey(db, filter);
    var i := first;
    sent := [];
    while i < |db| && EVENT_PREFIX <= db[i].key
      invariant first <= i <= |db|
      invariant Sending(db, i, filter, sent)
    {
      var e := db[i].blob.event;
      ScanStep(db, first, i, filter, sent);
      if RootAccepted(e, filter) {
        sent := sent + [e];
      }
      i := i + 1;
    }
    ScanEnd(db, first, i, filter, sent);
  }

  /** What the entries from the i-th on hold for the subscription. */
  ghost function Left(db: seq<Entry>, i: nat, filter: EventFilter): seq<Event>
    requires WellKeyed(db) && i <= |db|
  {
    Replay(Log(db[i..]), filter)
  }

  /** What was sent and what is left make up the replay. */
  ghost predicate Sending(db: seq<Entry>, i: nat, filter: EventFilter, sent: seq<Event>)
    requires WellKeyed(db) && i <= |db|
  {
    Replay(Log(db), filter) == sent + Left(db, i, filter)
  }

  /** Past the seek position an event is sent exactly if its root is accepted. */
  lemma ScanStep(db: seq<Entry>, first: nat, i: nat, filter: EventFilter, sent: seq<Event>)
    requires Sorted(db) && WellKeyed(db) && first <= i < |db| && EVENT_PREFIX <= db[i].key
    requires !Less(db[first].key, EventKey(SinceOf(filter))) && Sending(db, i, filter, sent)
    ensures RootAccepted(db[i].blob.event, filter) ==> Sending(db, i + 1, filter, sent + [db[i].blob.event])
    ensures !RootAccepted(db[i].blob.event, filter) ==> Sending(db, i + 1, filter, sent)
  {
    TailStep(db, i, filter);
    AtOrAfter(db, first, i, EventKey(SinceOf(filter)));
    MoveOver(sent, db[i].blob.event, Left(db, i + 1, filter));
  }

  lemma MoveOver(sent: seq<Event>, e: Event, rest: seq<Event>)
    ensures sent + ([e] + rest) == sent + [e] + rest
  {
  }

  lemma ScanEnd(db: seq<Entry>, first: nat, i: nat, filter: EventFilter, sent: seq<Event>)
    requires Sorted(db) && WellKeyed(db) && first <= i <= |db| && Sending(db, i, filter, sent)
    requires i < |db| ==> !Less(db[first].key, EventKey(SinceOf(filter))) && !(EVENT_PREFIX <= db[i].key)
    ensures sent == Replay(Log(db), filter)
  {
    if i < |db| { NoEventsBeyond(db, first, i, EventKey(SinceOf(filter))); }
    NoPrefixNoLog(db[i..]);
    assert sent + [] == sent;
  }

  ghost predicate FirstAtOrAfter(db: seq<Entry>, i: nat, seek: string) {
    && i <= |db| && (i < |db| ==> !Less(db[i].key, seek))
    && forall j :: 0 <= j < i ==> Less(db[j].key, seek)
  }

  /** The iterator's Seek: the first key that is not before the filter's Since. */
  method SeekKey(db: seq<Entry>, filter: EventFilter) returns (i: nat)
    requires WellKeyed(db)
    ensures FirstAtOrAfter(db, i, EventKey(SinceOf(filter))) && Sending(db, i, filter, [])
  {
    i := 0;
    assert db[0..] == db && [] + Replay(Log(db), filter) == Replay(Log(db), filter);
    while i < |db| && Less(db[i].key, EventKey(SinceOf(filter)))
      invariant i <= |db|
      invariant forall j :: 0 <= j < i ==> Less(db[j].key, EventKey(SinceOf(filter)))
      invariant Sending(db, i, filter, [])
    {
      TailStep(db, i, filter);
      i := i + 1;
    }
  }

  /** Reading one entry: an event whose key is at or after the seek key is replayed if its root is accepted. */
  lemma TailStep(db: seq<Entry>, i: nat, filter: EventFilter)
    requires WellKeyed(db) && i < |db|
    ensures Left(db, i, filter) ==
      if EVENT_PREFIX <= db[i].key && !Less(db[i].key, EventKey(SinceOf(filter))) && RootAccepted(db[i].blob.event, filter)
      then [db[i].blob.event] + Left(db, i + 1, filter)
      else Left(db, i + 1, filter)
  {
    assert db[i..][1..] == db[i + 1..];
    if EVENT_PREFIX <= db[i].key {
      var rest := Log(db[i + 1..]);
      assert ([db[i].blob.event] + rest)[1..] == rest;
      EventKeyOrder(db[i].blob.event.timestamp, SinceOf(filter));
    }
  }

  lemma AtOrAfter(db: seq<Entry>, first: nat, i: nat, seek: string)
    requires Sorted(db) && first <= i < |db| && !Less(db[first].key, seek)
    ensures !Less(db[i].key, seek)
  {
    if first < i && Less(db[i].key, seek) {
      LessTransitive(db[first].key, db[i].key, seek);
    }
  }

  /** Past the seek position, the first key without the prefix ends the events. */
  lemma NoEventsBeyond(db: seq<Entry>, first: nat, i: nat, seek: string)
    requires Sorted(db) && first <= i < |db| && !Less(db[first].key, seek)
    requires EVENT_PREFIX <= seek && !(EVENT_PREFIX <= db[i].key)
    ensures forall j :: i <= j < |db| ==> !(EVENT_PREFIX <= db[j].key)
  {
    AtOrAfter(db, first, i, seek);
    LessTotal(db[i].key, seek);
    forall j | i <= j < |db| ensures !(EVENT_PREFIX <= db[j].key) {
      if EVENT_PREFIX <= db[j].key { PrefixRunIsConvex(EVENT_PREFIX, seek, db[i].key, db[j].key); }
    }
  }

  lemma {:induction false} NoPrefixNoLog(db: seq<Entry>)
    requires forall j :: 0 <= j < |db| ==> !(EVENT_PREFIX <= db[j].key)
    ensures Log(db) == []
  {
    if db != [] { NoPrefixNoLog(db[1..]); }
  }
}
