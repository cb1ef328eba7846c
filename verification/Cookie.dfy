// Signed session cookies: id "." issue-time "." signature, each part in
// base64url.
module Cookie {
  import opened Basics
  import opened GoPath
  import opened Base64Url
  import Decimal

  const SECOND: int := 1_000_000_000

  // time.Duration: nanoseconds in 64 bits, at most this many seconds.
  type Duration = d: int | Decimal.IsInt64(d)

  const MAX_DURATION_SECONDS: int := 9_223_372_037

  // Go's time.Time counts seconds from the year 1, so many before 1970.
  const UNIX_TO_INTERNAL: int := 62_135_596_800

  // Nanoseconds since the Unix epoch, as far as Go can count them and add a
  // Duration.
  type Instant = t: int
    | Decimal.MIN_INT64 <= t / SECOND <= Decimal.MAX_INT64 - UNIX_TO_INTERNAL - MAX_DURATION_SECONDS

  // time.Time.Unix: whole seconds, rounded down.
  function Unix(t: Instant): int {
    t / SECOND
  }

  // The store: HMAC-SHA256 under the secret, as some function of the message,
  // and the lifetime.
  datatype SessionStore = SessionStore(mac: string -> seq<Byte>, ttl: Duration)

  function Bytes(s: string): seq<Byte>
    requires forall i | 0 <= i < |s| :: s[i] as int < 256
  {
    seq(|s|, i requires 0 <= i < |s| => var b: Byte := s[i] as int; b)
  }

  function Text(bs: seq<Byte>): string {
    seq(|bs|, i requires 0 <= i < |bs| => bs[i] as char)
  }

  lemma TextOfBytes(s: string)
    requires forall i | 0 <= i < |s| :: s[i] as int < 256
    ensures Text(Bytes(s)) == s
  {
  }

  function Message(id: string, ts: string): string {
    id + "." + ts
  }

  function Sign(store: SessionStore, id: string, ts: string): seq<Byte> {
    store.mac(Message(id, ts))
  }

  function Stamp(now: Instant): string {
    Decimal.RoundTrip(Unix(now));
    Encode(Bytes(Decimal.FormatInt(Unix(now))))
  }

  // The cookie for a fresh random id.
  function Issue(store: SessionStore, id: seq<Byte>, now: Instant): string {
    Encode(id) + "." + Stamp(now) + "." + Encode(Sign(store, Encode(id), Stamp(now)))
  }

  function Verify(store: SessionStore, cookie: string, now: Instant): bool {
    var parts := Split(cookie, '.');
    if |parts| != 3 then false
    else
      match Decode(parts[2])
      case None => false
      case Some(sig) =>
        if sig != Sign(store, parts[0], parts[1]) then false
        else
          match Decode(parts[1])
          case None => false
          case Some(raw) =>
            match Decimal.ParseInt(Text(raw))
            case None => false
            case Some(issued) => store.ttl <= 0 || now <= issued * SECOND + store.ttl
  }

  lemma SplitThree(a: string, b: string, c: string)
    requires '.' !in a && '.' !in b && '.' !in c
    ensures Split(a + "." + b + "." + c, '.') == [a, b, c]
  {
    hide Split;
    assert a + "." + b + "." + c == (a + ['.'] + b) + ['.'] + c;
    SplitAround(a + ['.'] + b, c, '.');
    SplitAround(a, b, '.');
    SplitAtom(a, '.');
    SplitAtom(b, '.');
    SplitAtom(c, '.');
  }

  lemma IssuedCookieSplits(store: SessionStore, id: seq<Byte>, now: Instant)
    ensures Split(Issue(store, id, now), '.')
            == [Encode(id), Stamp(now), Encode(Sign(store, Encode(id), Stamp(now)))]
  {
    var a, b, c := Encode(id), Stamp(now), Encode(Sign(store, Encode(id), Stamp(now)));
    Decimal.RoundTrip(Unix(now));
    EncodedSafe(id);
    EncodedSafe(Bytes(Decimal.FormatInt(Unix(now))));
    EncodedSafe(Sign(store, a, b));
    assert '.' !in a && '.' !in b && '.' !in c;
    hide Encode, Stamp, Split;
    SplitThree(a, b, c);
  }

  lemma StampReadsBack(now: Instant)
    ensures Decode(Stamp(now)).Some? && Decimal.ParseInt(Text(Decode(Stamp(now)).value)) == Some(Unix(now))
  {
    var s := Decimal.FormatInt(Unix(now));
    Decimal.RoundTrip(Unix(now));
    Base64Url.RoundTrip(Bytes(s));
    TextOfBytes(s);
  }

  // A cookie issued at i is accepted at t exactly up to the issue time, cut
  // down to the second, plus the lifetime; without a positive lifetime,
  // always.
  lemma IssuedCookieAccepted(store: SessionStore, id: seq<Byte>, i: Instant, t: Instant)
    ensures Verify(store, Issue(store, id, i), t) <==> store.ttl <= 0 || t <= Unix(i) * SECOND + store.ttl
  {
    IssuedCookieSplits(store, id, i);
    StampReadsBack(i);
    Base64Url.RoundTrip(Sign(store, Encode(id), Stamp(i)));
    hide Encode, Stamp, Split, Issue, Decode, Decimal.ParseInt, Text, Sign;
  }

  // So it lives for some time in (ttl - 1s, ttl], counted from its issue.
  lemma IssuedCookieLifetime(store: SessionStore, id: seq<Byte>, i: Instant) returns (life: int)
    requires store.ttl > 0
    ensures store.ttl - 1_000_000_000 < life <= store.ttl
    ensures forall t: Instant :: Verify(store, Issue(store, id, i), t) <==> t - i <= life
  {
    life := Unix(i) * SECOND + store.ttl - i;
    assert i == Unix(i) * SECOND + i % SECOND;
    forall t: Instant ensures Verify(store, Issue(store, id, i), t) <==> t - i <= life {
      IssuedCookieAccepted(store, id, i, t);
    }
  }

  // The cookie has three parts, and they are: an id, the encoded decimal
  // issue time, and an encoding of the code of the first two.
  ghost predicate SaysAndSigns(store: SessionStore, cookie: string, id: string, ts: string, sig: string, issued: int) {
    && cookie == id + "." + ts + "." + sig && '.' !in id && '.' !in ts && '.' !in sig
    && Decode(sig) == Some(store.mac(id + "." + ts))
    && Decode(ts).Some? && Decimal.ParseInt(Text(Decode(ts).value)) == Some(issued)
  }

  // A cookie is accepted exactly if it is an id, an issue time and a valid
  // code for the two, and the issue time plus the lifetime, if there is one,
  // has not passed.
  lemma AcceptedCookieIsSigned(store: SessionStore, cookie: string, t: Instant)
    ensures Verify(store, cookie, t) <==>
            exists id: string, ts: string, sig: string, issued: int ::
              SaysAndSigns(store, cookie, id, ts, sig, issued)
              && (store.ttl <= 0 || t <= issued * 1_000_000_000 + store.ttl)
  {
    hide Split, Decode, Text, Decimal.ParseInt;
    if Verify(store, cookie, t) {
      var parts := Split(cookie, '.');
      ThreeParts(cookie);
      SplitPieces(cookie, '.');
      assert SaysAndSigns(store, cookie, parts[0], parts[1], parts[2],
                          Decimal.ParseInt(Text(Decode(parts[1]).value)).value);
    }
    forall id: string, ts: string, sig: string, issued: int
      | SaysAndSigns(store, cookie, id, ts, sig, issued)
        && (store.ttl <= 0 || t <= issued * 1_000_000_000 + store.ttl)
      ensures Verify(store, cookie, t)
    {
      SplitThree(id, ts, sig);
    }
  }

  lemma ThreeParts(cookie: string)
    requires |Split(cookie, '.')| == 3
    ensures var parts := Split(cookie, '.'); cookie == parts[0] + "." + parts[1] + "." + parts[2]
  {
    hide Split;
    var parts := Split(cookie, '.');
    JoinSplit(cookie, '.');
    assert parts[1..] == [parts[1], parts[2]] && parts[1..][1..] == [parts[2]];
    assert Join([parts[1], parts[2]], '.') == parts[1] + "." + parts[2];
    assert Join(parts, '.') == parts[0] + "." + (parts[1] + "." + parts[2]);
    assert parts[0] + "." + (parts[1] + "." + parts[2]) == parts[0] + "." + parts[1] + "." + parts[2];
  }

  lemma MessageInjective(a: string, b: string, c: string, d: string)
    requires '.' !in a && '.' !in b && '.' !in c && '.' !in d && Message(a, b) == Message(c, d)
    ensures a == c && b == d
  {
    assert Message(a, b) == a + ['.'] + b && Message(c, d) == c + ['.'] + d;
    SplitAround(a, b, '.');
    SplitAround(c, d, '.');
    SplitAtom(a, '.');
    SplitAtom(b, '.');
    SplitAtom(c, '.');
    SplitAtom(d, '.');
    assert [a] + [b] == [c] + [d];
    assert ([a] + [b])[0] == ([c] + [d])[0] && ([a] + [b])[1] == ([c] + [d])[1];
  }

  // The issue time is part of the signed message: cookies accepted for the
  // same message are accepted at the same times, whatever else they say.
  lemma LifetimeIsSigned(store: SessionStore, x: string, y: string, t: Instant, u: Instant, v: Instant)
    requires Verify(store, x, t) && Verify(store, y, u)
    requires var p, q := Split(x, '.'), Split(y, '.');
             |p| == 3 && |q| == 3 && Message(p[0], p[1]) == Message(q[0], q[1])
    ensures Verify(store, x, v) <==> Verify(store, y, v)
  {
    var p, q := Split(x, '.'), Split(y, '.');
    SplitPieces(x, '.');
    SplitPieces(y, '.');
    MessageInjective(p[0], p[1], q[0], q[1]);
    hide Split, Decode, Text, Decimal.ParseInt;
  }
}
