/** What a token exchange's response yields: a token that may be cached, until when, and the body
    handed on. Times are nanoseconds, zero being the zero time. */
module BearerResponse {
  import opened Basics

  type Time = int

  const SECOND := 1_000_000_000
  const EXPIRY_MARGIN := 30 * SECOND
  const BODY_LIMIT := 65536
  const MAX_INT64 := 0x7fff_ffff_ffff_ffff
  const DEFAULT_SECONDS := 60

  // ---- Bodies.

  datatype End = EOF | ReadError(code: string)

  /** What reading to the end gives: the bytes, then the end of file or an error. */
  datatype Stream = Stream(bytes: seq<byte>, end: End)

  /** Reading at most `n` bytes: the prefix and the error hit, if any, and what is left behind. A
      reader may report an error together with the last byte or only after it. */
  datatype Read = Read(prefix: seq<byte>, error: Option<string>, rest: Stream)

  function ReadAtMost(s: Stream, n: nat, eager: bool): (r: Read)
    ensures |r.prefix| <= n && r.prefix + r.rest.bytes == s.bytes && r.rest.end == s.end
    ensures |r.prefix| < n ==> r.rest.bytes == []
  {
    var k := if |s.bytes| < n then |s.bytes| else n;
    var hit := s.end.ReadError? && (|s.bytes| < n || (|s.bytes| == n && eager));
    Read(s.bytes[..k], if hit then Some(s.end.code) else None, Stream(s.bytes[k..], s.end))
  }

  /** The body put back together after the inspection. */
  function Reassembled(r: Read): Stream {
    if r.error.Some? then Stream(r.prefix, ReadError(r.error.value))
    else if |r.prefix| > BODY_LIMIT then Stream(r.prefix + r.rest.bytes, r.rest.end)
    else Stream(r.prefix, EOF)
  }

  /** Inspecting a body does not change what its reader gets, up to a read error at its place. */
  lemma BodyReplayed(s: Stream, eager: bool)
    ensures Reassembled(ReadAtMost(s, BODY_LIMIT + 1, eager)) == s
  {
    var r := ReadAtMost(s, BODY_LIMIT + 1, eager);
    if |s.bytes| <= BODY_LIMIT + 1 { assert s.bytes[..|s.bytes|] == s.bytes; }
    assert r.prefix + r.rest.bytes == s.bytes;
  }

  // ---- Payloads.

  /** A present `expires_in` is a positive number or unusable. */
  datatype ExpiresIn = Absent | Unusable | Seconds(n: int)

  datatype Payload = Payload(token: string, accessToken: string, refreshToken: string,
                             expiresIn: ExpiresIn, issuedAt: Option<Time>)

  /** The exchange a cached token comes from. */
  datatype Exchange = Exchange(started: Time, issuedAt: Option<Time>, seconds: int)

  function Earlier(x: Exchange): Time {
    if x.issuedAt.Some? && x.issuedAt.value < x.started then x.issuedAt.value else x.started
  }

  /** A token's lifetime counts from the issue or the start of the request, whichever is earlier. */
  function LifetimeEnd(x: Exchange): Time {
    Earlier(x) + x.seconds * SECOND
  }

  datatype Grant = NoToken | Grant(token: string, expiry: Time, exchange: Exchange)

  function Inspect(status: int, read: Read, parse: seq<byte> -> Option<Payload>, started: Time, now: Time): (g: Grant)
    ensures g.Grant? ==>
              && g.token != "" && g.exchange.started == started && 0 < g.exchange.seconds
              && g.exchange.seconds * SECOND <= MAX_INT64
              && g.expiry == LifetimeEnd(g.exchange) && now + EXPIRY_MARGIN < g.expiry
  {
    if status != 200 || read.error.Some? || |read.prefix| > BODY_LIMIT then NoToken
    else match parse(read.prefix)
      case None => NoToken
      case Some(p) =>
        if p.refreshToken != "" then NoToken
        else
          var seconds := if p.expiresIn.Seconds? then p.expiresIn.n else DEFAULT_SECONDS;
          if p.expiresIn.Unusable? || seconds <= 0 || seconds > MAX_INT64 / SECOND then NoToken
          else
            var token := if p.accessToken != "" then p.accessToken else p.token;
            if token == "" then NoToken
            else
              var byStart := started + seconds * SECOND;
              var expiry :=
                if p.issuedAt.Some? && p.issuedAt.value < started && p.issuedAt.value + seconds * SECOND < byStart
                then p.issuedAt.value + seconds * SECOND else byStart;
              if !(now + EXPIRY_MARGIN < expiry) then NoToken
              else Grant(token, expiry, Exchange(started, p.issuedAt, seconds))
  }

  /** A grant is made for every usable answer that outlives the margin, and for no other: at most
      64 KiB, no refresh token, a lifetime of 60 seconds if none is given, of no more nanoseconds than
      a 64-bit integer holds, and more than 30 seconds of it left. */
  lemma GrantExact(status: int, body: Stream, eager: bool, parse: seq<byte> -> Option<Payload>, started: Time, now: Time)
    ensures var g := Inspect(status, ReadAtMost(body, BODY_LIMIT + 1, eager), parse, started, now);
            g.Grant? <==>
              && status == 200 && body.end.EOF? && |body.bytes| <= 65536 && parse(body.bytes).Some?
              && var p := parse(body.bytes).value;
              && p.refreshToken == "" && !p.expiresIn.Unusable? && (p.token != "" || p.accessToken != "")
              && var n := if p.expiresIn.Seconds? then p.expiresIn.n else 60;
              && 0 < n && n * 1_000_000_000 <= 9_223_372_036_854_775_807
              && now + 30_000_000_000 < started + n * 1_000_000_000
              && (p.issuedAt.Some? ==> now + 30_000_000_000 < p.issuedAt.value + n * 1_000_000_000)
    ensures var g := Inspect(status, ReadAtMost(body, BODY_LIMIT + 1, eager), parse, started, now);
            g.Grant? ==> var p := parse(body.bytes).value; g.token == if p.accessToken != "" then p.accessToken else p.token
  {
    var r := ReadAtMost(body, BODY_LIMIT + 1, eager);
    if |body.bytes| <= BODY_LIMIT + 1 { assert body.bytes[..|body.bytes|] == body.bytes; }
    BodyReplayed(body, eager);
  }
}
