/** Shared vocabulary of the user service model: optional values, results,
    the error taxonomy the Go code produces, Go's string helpers, and the
    request-scoped context that gRPC hands to interceptors and handlers. */
module Common {

  /** A Go pointer or comma-ok value: absent or present. */
  datatype Option<+T> = None | Some(value: T)

  /** gRPC status codes that the service returns. */
  datatype Code =
    | InvalidArgument
    | Unauthenticated
    | NotFound
    | AlreadyExists
    | FailedPrecondition
    | ResourceExhausted
    | Internal

  /** Errors raised by the relational database driver. */
  datatype DbError =
    | NoRows                  // sql.ErrNoRows
    | PqError(code: string)   // a *pq.Error carrying a SQLSTATE code
    | Unreachable             // connection failure

  /** Errors raised by the key-value store client. */
  datatype RedisError =
    | Down        // connection failure or timeout
    | NotInteger  // INCR on a value that is not a counter

  /** Every error value the Go code can hand back. `Panic` stands for a
      run-time crash (nil dereference, failed type assertion). */
  datatype Error =
    | Status(code: Code, msg: string)
    | Plain(msg: string)
    | Db(dbErr: DbError)
    | Redis(redisErr: RedisError)
    | Panic(why: string)
      /** status.Errorf(code, prefix + "%v", cause): a status whose message
          embeds the text of an underlying error. */
    | Wrapped(code: Code, prefix: string, cause: Error)

  datatype Result<+T> = Success(value: T) | Failure(error: Error)

  /** The SQLSTATE code of a unique-constraint violation. */
  const UniqueViolation: string := "23505"
  /** The SQLSTATE code of a malformed literal (e.g. a non-numeric integer id). */
  const InvalidTextRepresentation: string := "22P02"

  // ---------------------------------------------------------------------
  // Password hashing (bcrypt, abstracted)
  // ---------------------------------------------------------------------

  /** Stand-in for bcrypt.GenerateFromPassword: the digest records the
      password it was made from. Salting, the cost factor and the Blowfish
      rounds are not modelled. */
  function Hash(password: string): string
  {
    "bcrypt:" + password
  }

  /** bcrypt refuses to hash passwords longer than this many bytes, and
      reads no further than this many bytes of a password it compares. */
  const MaxPasswordBytes: nat := 72

  /** Number of bytes of a code point in UTF-8. */
  function Utf8Width(c: char): (n: nat)
    ensures 1 <= n <= 4
  {
    if c as int < 0x80 then 1 else if c as int < 0x800 then 2 else if c as int < 0x1_0000 then 3 else 4
  }

  /** Length in bytes of the UTF-8 encoding, i.e. `len([]byte(s))`. */
  function Utf8Length(s: string): nat
  {
    if s == [] then 0 else Utf8Length(s[..|s| - 1]) + Utf8Width(s[|s| - 1])
  }

  /** Every code point takes at least one byte. */
  lemma {:induction false} Utf8LengthAtLeast(s: string)
    ensures Utf8Length(s) >= |s|
  {
    if s != [] {
      Utf8LengthAtLeast(s[..|s| - 1]);
    }
  }

  /** The number of bytes of a UTF-8 sequence, read off its first byte. */
  function LeadWidth(b: nat): nat
  {
    if b < 0x80 then 1 else if b < 0xE0 then 2 else if b < 0xF0 then 3 else 4
  }

  /** UTF-8 encoding of one code point (section 3 of RFC 3629). */
  function Utf8Encode(c: char): (b: seq<nat>)
    ensures |b| == Utf8Width(c)
    ensures LeadWidth(b[0]) == |b|
    ensures forall i :: 1 <= i < |b| ==> 0x80 <= b[i] < 0xC0
  {
    var n := c as int;
    if n < 0x80 then [n]
    else if n < 0x800 then [0xC0 + n / 0x40, 0x80 + n % 0x40]
    else if n < 0x1_0000 then [0xE0 + n / 0x1000, 0x80 + (n / 0x40) % 0x40, 0x80 + n % 0x40]
    else [0xF0 + n / 0x4_0000, 0x80 + (n / 0x1000) % 0x40, 0x80 + (n / 0x40) % 0x40, 0x80 + n % 0x40]
  }

  /** A number is fixed by its last base-64 digit and the rest. */
  lemma SameDigits(n: nat, m: nat)
    requires n / 0x40 == m / 0x40 && n % 0x40 == m % 0x40
    ensures n == m
  {
  }

  /** Dividing by 64 twice is dividing by 4096, three times by 262144. */
  lemma DivDiv(n: nat)
    ensures n / 0x1000 == n / 0x40 / 0x40
    ensures n / 0x4_0000 == n / 0x1000 / 0x40
  {
  }

  /** Distinct code points have distinct encodings. */
  lemma Utf8EncodeInjective(c: char, d: char)
    ensures Utf8Encode(c) == Utf8Encode(d) ==> c == d
  {
    var n, m := c as int, d as int;
    if Utf8Encode(c) == Utf8Encode(d) && n >= 0x80 {
      DivDiv(n);
      DivDiv(m);
      if n >= 0x800 {
        if n >= 0x1_0000 {
          SameDigits(n / 0x1000, m / 0x1000);
        }
        SameDigits(n / 0x40, m / 0x40);
      }
      SameDigits(n, m);
    }
  }

  /** `[]byte(s)`: the UTF-8 bytes of a string. */
  function Utf8Bytes(s: string): (b: seq<nat>)
    ensures |b| == Utf8Length(s)
  {
    if s == [] then [] else Utf8Bytes(s[..|s| - 1]) + Utf8Encode(s[|s| - 1])
  }

  /** The bytes of a concatenation are the concatenated bytes. */
  lemma {:induction false} Utf8BytesConcat(a: string, b: string)
    ensures Utf8Bytes(a + b) == Utf8Bytes(a) + Utf8Bytes(b)
  {
    if b == [] {
      assert a + b == a;
    } else {
      assert (a + b)[..|a + b| - 1] == a + b[..|b| - 1];
      Utf8BytesConcat(a, b[..|b| - 1]);
    }
  }

  /** Decoding is unique: strings with the same bytes are equal. */
  lemma {:induction false} Utf8BytesInjective(s: string, t: string)
    requires Utf8Bytes(s) == Utf8Bytes(t)
    ensures s == t
    decreases |s|
  {
    Utf8LengthAtLeast(s);
    Utf8LengthAtLeast(t);
    if s != [] && t != [] {
      Utf8BytesConcat([s[0]], s[1..]);
      Utf8BytesConcat([t[0]], t[1..]);
      assert [s[0]] + s[1..] == s && [t[0]] + t[1..] == t;
      assert Utf8Bytes([s[0]]) == Utf8Encode(s[0]) by { assert [s[0]][..0] == []; }
      assert Utf8Bytes([t[0]]) == Utf8Encode(t[0]) by { assert [t[0]][..0] == []; }
      var w := |Utf8Encode(s[0])|;
      assert w == LeadWidth(Utf8Bytes(s)[0]) == |Utf8Encode(t[0])|;
      assert Utf8Encode(s[0]) == Utf8Bytes(s)[..w] == Utf8Encode(t[0]);
      Utf8EncodeInjective(s[0], t[0]);
      assert Utf8Bytes(s[1..]) == Utf8Bytes(s)[w..] == Utf8Bytes(t[1..]);
      Utf8BytesInjective(s[1..], t[1..]);
    }
  }

  /** bcrypt.GenerateFromPassword: fails on a password over the byte limit,
      otherwise yields the digest. */
  function HashPassword(password: string): (r: Result<string>)
    ensures r.Success? <==> Utf8Length(password) <= MaxPasswordBytes
    ensures r.Success? ==> r.value == Hash(password) && r.value != ""
  {
    if Utf8Length(password) > MaxPasswordBytes then Failure(Plain("bcrypt: password length exceeds 72 bytes"))
    else Success(Hash(password))
  }

  /** The Blowfish key bcrypt derives from a password: its bytes and a
      terminating NUL, cut at the byte limit. */
  function BcryptKey(password: string): (k: seq<nat>)
    ensures |k| == if Utf8Length(password) < MaxPasswordBytes then Utf8Length(password) + 1 else MaxPasswordBytes
    ensures Utf8Length(password) < MaxPasswordBytes ==> k == Utf8Bytes(password) + [0]
    ensures Utf8Length(password) >= MaxPasswordBytes ==> k == Utf8Bytes(password)[..MaxPasswordBytes]
  {
    var b := Utf8Bytes(password) + [0];
    if |b| <= MaxPasswordBytes then b else b[..MaxPasswordBytes]
  }

  /** Stand-in for bcrypt.CompareHashAndPassword succeeding: the digest is
      well formed and was made from a password with the same key. */
  predicate CheckHash(password: string, hash: string)
  {
    |hash| >= 7 && hash[..7] == "bcrypt:" && BcryptKey(hash[7..]) == BcryptKey(password)
  }

  /** A password matches a digest exactly when it yields the same key as
      the password the digest was made from. */
  lemma CheckHashIff(password: string, other: string)
    ensures CheckHash(password, Hash(other)) <==> BcryptKey(password) == BcryptKey(other)
  {
    assert Hash(other)[..7] == "bcrypt:" && Hash(other)[7..] == other;
  }

  /** Below the byte limit, a password matches the digest of exactly
      itself. */
  lemma {:induction false} ShortPasswordMatchesOnlyItself(password: string, other: string)
    requires Utf8Length(password) < MaxPasswordBytes && Utf8Length(other) < MaxPasswordBytes
    ensures CheckHash(password, Hash(other)) <==> password == other
  {
    CheckHashIff(password, other);
    if BcryptKey(password) == BcryptKey(other) {
      var k := BcryptKey(password);
      assert Utf8Bytes(password) == k[..|k| - 1] == Utf8Bytes(other);
      Utf8BytesInjective(password, other);
    }
  }

  /** Bytes past the limit are never read: once a digest's password fills
      the limit, any extension of it matches too. */
  lemma {:induction false} ExtensionPastLimitMatches(password: string, extra: string)
    requires Utf8Length(password) >= MaxPasswordBytes
    ensures CheckHash(password + extra, Hash(password))
  {
    Utf8BytesConcat(password, extra);
    assert Utf8Bytes(password + extra)[..MaxPasswordBytes] == Utf8Bytes(password)[..MaxPasswordBytes];
    CheckHashIff(password + extra, password);
  }

  // ---------------------------------------------------------------------
  // Request-scoped context (context.Context as seen by this service)
  // ---------------------------------------------------------------------

  /** gRPC incoming metadata: lower-case keys to value lists. */
  type Metadata = map<string, seq<string>>

  /** A value stored in a context under some key. */
  datatype CtxValue = Str(s: string) | NonString

  /** The transport peer; its address may be nil. */
  datatype Peer = Peer(addr: Option<string>)

  /** A request context: incoming metadata if any, the values attached with
      context.WithValue, and the transport peer if any. */
  datatype Ctx = Ctx(md: Option<Metadata>, values: map<string, CtxValue>, peer: Option<Peer>)

  /** `ctx.Value(key).(string)` with the ok-form type assertion: the value
      if one is stored under `key` and it is a string. */
  function CtxString(ctx: Ctx, key: string): (r: Option<string>)
    ensures r.Some? <==> key in ctx.values && ctx.values[key].Str?
    ensures r.Some? ==> ctx.values[key] == Str(r.value)
  {
    if key in ctx.values && ctx.values[key].Str? then Some(ctx.values[key].s) else None
  }

  /** metadata.MD.Get for an already lower-case key. */
  function MdGet(md: Metadata, key: string): seq<string>
  {
    if key in md then md[key] else []
  }

  // ---------------------------------------------------------------------
  // Strings (Go's strings package, on code points)
  // ---------------------------------------------------------------------

  /** unicode.IsSpace. */
  predicate IsSpace(c: char)
  {
    var n := c as int;
    (0x09 <= n <= 0x0D) || n == 0x20 || n == 0x85 || n == 0xA0 || n == 0x1680
    || (0x2000 <= n <= 0x200A) || n == 0x2028 || n == 0x2029 || n == 0x202F
    || n == 0x205F || n == 0x3000
  }

  predicate AllSpace(s: string)
  {
    forall k :: 0 <= k < |s| ==> IsSpace(s[k])
  }

  /** Number of leading white-space characters. */
  function LeadingSpaces(s: string): (n: nat)
    ensures n <= |s|
    ensures forall k :: 0 <= k < n ==> IsSpace(s[k])
    ensures n < |s| ==> !IsSpace(s[n])
  {
    if |s| == 0 || !IsSpace(s[0]) then 0 else 1 + LeadingSpaces(s[1..])
  }

  /** Number of trailing white-space characters. */
  function TrailingSpaces(s: string): (n: nat)
    ensures n <= |s|
    ensures forall k :: |s| - n <= k < |s| ==> IsSpace(s[k])
    ensures n < |s| ==> !IsSpace(s[|s| - n - 1])
  {
    if |s| == 0 || !IsSpace(s[|s| - 1]) then 0 else 1 + TrailingSpaces(s[..|s| - 1])
  }

  /** strings.TrimSpace: the slice of `s` left after dropping white space at
      both ends; it is empty exactly when `s` is all white space, and
      otherwise starts and ends with a non-space character. */
  function TrimSpace(s: string): (r: string)
    ensures |r| <= |s|
    ensures r == [] <==> AllSpace(s)
    ensures r != [] ==> !IsSpace(r[0]) && !IsSpace(r[|r| - 1])
    ensures LeadingSpaces(s) + |r| <= |s| && r == s[LeadingSpaces(s)..LeadingSpaces(s) + |r|]
  {
    var lead := LeadingSpaces(s);
    if lead == |s| then
      assert s[0..0] == [];
      []
    else
      var rest := s[lead..];
      var trail := TrailingSpaces(rest);
      assert rest[0] == s[lead];
      var r := rest[..|rest| - trail];
      assert r == s[lead..lead + |r|];
      assert !AllSpace(s) by { assert !IsSpace(s[lead]); }
      r
  }

  /** A string without white space at either end is its own trim. */
  lemma TrimSpaceOfTrimmed(s: string)
    requires s == [] || (!IsSpace(s[0]) && !IsSpace(s[|s| - 1]))
    ensures TrimSpace(s) == s
  {
    if s != [] {
      assert LeadingSpaces(s) == 0;
      assert TrailingSpaces(s) == 0;
    }
  }

  /** TrimSpace is idempotent. */
  lemma TrimSpaceIdempotent(s: string)
    ensures TrimSpace(TrimSpace(s)) == TrimSpace(s)
  {
    TrimSpaceOfTrimmed(TrimSpace(s));
  }

  /** ASCII lower-casing of one character. */
  function LowerChar(c: char): char
  {
    if 'A' <= c <= 'Z' then (c as int - 'A' as int + 'a' as int) as char else c
  }

  /** strings.ToLower restricted to ASCII letters. */
  function ToLower(s: string): (r: string)
    ensures |r| == |s|
    ensures forall k :: 0 <= k < |s| ==> r[k] == LowerChar(s[k])
  {
    seq(|s|, k requires 0 <= k < |s| => LowerChar(s[k]))
  }

  /** Lower-casing leaves no upper-case ASCII letter and never turns a
      space into a non-space or back. */
  lemma LowerCharFacts(c: char)
    ensures !('A' <= LowerChar(c) <= 'Z')
    ensures LowerChar(LowerChar(c)) == LowerChar(c)
    ensures IsSpace(LowerChar(c)) <==> IsSpace(c)
  {
  }

  /** strings.HasPrefix. */
  predicate HasPrefix(s: string, p: string)
  {
    |p| <= |s| && s[..|p|] == p
  }

  /** strings.TrimPrefix: removes one occurrence of `p` at the start. */
  function TrimPrefix(s: string, p: string): (r: string)
    ensures HasPrefix(s, p) ==> p + r == s
    ensures !HasPrefix(s, p) ==> r == s
  {
    if HasPrefix(s, p) then
      assert s == s[..|p|] + s[|p|..];
      s[|p|..]
    else s
  }

  /** strings.Contains, searched left to right. */
  function Contains(s: string, sub: string): bool
  {
    if HasPrefix(s, sub) then true
    else if |s| == 0 then false
    else Contains(s[1..], sub)
  }

  /** Contains means `sub` occurs at some offset of `s`. */
  predicate OccursAt(s: string, sub: string, i: int)
  {
    0 <= i && i + |sub| <= |s| && s[i..i + |sub|] == sub
  }

  lemma {:induction false} ContainsIff(s: string, sub: string)
    ensures Contains(s, sub) <==> exists i :: OccursAt(s, sub, i)
  {
    if HasPrefix(s, sub) {
      assert OccursAt(s, sub, 0);
    } else if |s| == 0 {
      assert |sub| > 0;
    } else {
      ContainsIff(s[1..], sub);
      if Contains(s, sub) {
        var i :| OccursAt(s[1..], sub, i);
        assert s[i + 1..i + 1 + |sub|] == s[1..][i..i + |sub|];
        assert OccursAt(s, sub, i + 1);
      }
      if exists i :: OccursAt(s, sub, i) {
        var i :| OccursAt(s, sub, i);
        assert i != 0;
        assert s[1..][i - 1..i - 1 + |sub|] == s[i..i + |sub|];
        assert OccursAt(s[1..], sub, i - 1);
      }
    }
  }

  /** Position of the first `c` in `s`, if any (strings.IndexByte). */
  function IndexOf(s: string, c: char): (r: Option<nat>)
    ensures r.None? <==> c !in s
    ensures r.Some? ==> r.value < |s| && s[r.value] == c && c !in s[..r.value]
  {
    if |s| == 0 then None
    else if s[0] == c then Some(0)
    else
      match IndexOf(s[1..], c)
      case None => None
      case Some(k) =>
        assert s[..k + 1] == [s[0]] + s[1..][..k];
        Some(k + 1)
  }

  /** Position of the last `c` in `s`, if any (strings.LastIndex). */
  function LastIndexOf(s: string, c: char): (r: Option<nat>)
    ensures r.None? <==> c !in s
    ensures r.Some? ==> r.value < |s| && s[r.value] == c && c !in s[r.value + 1..]
  {
    if |s| == 0 then None
    else if s[|s| - 1] == c then Some(|s| - 1)
    else
      var init := s[..|s| - 1];
      assert s == init + [s[|s| - 1]];
      match LastIndexOf(init, c)
      case None => None
      case Some(k) =>
        assert s[k + 1..] == init[k + 1..] + [s[|s| - 1]];
        Some(k)
  }

  /** strings.Split(s, [sep])[0]: everything before the first `sep`. */
  function FirstField(s: string, sep: char): (r: string)
    ensures sep !in r
    ensures HasPrefix(s, r)
    ensures |r| < |s| ==> s[|r|] == sep
    ensures sep !in s ==> r == s
  {
    match IndexOf(s, sep)
    case None => s
    case Some(k) => s[..k]
  }
}
