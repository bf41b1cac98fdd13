/**
 The wire format of include/core/packet.h, as values: how each kind of field is laid out in
 bytes, how it is read back, and the proof that reading undoes writing.
 */
module Wire {
  import opened Common

  datatype User = User(uid: Int32, nickname: seq<Byte>)

  /** The fields packets are made of. Strings are byte strings. */
  datatype Field =
    | I32(i32: Int32)
    | I16(i16: Int16)
    | I8(i8: Byte)
    | Str(bytes: seq<Byte>)
    | Ints(ints: seq<Int32>)
    | Users(users: seq<User>)

  datatype Kind = KI32 | KI16 | KI8 | KStr | KInts | KUsers

  const HEAD := 8
  const PACK_SIZE := 8096
  const MAX_COUNT := 0x7FFF

  // ---------------------------------------------------------------- fixed-width integers

  function Pow256(k: nat): (p: nat)
    ensures p >= 1
  {
    if k == 0 then 1 else 256 * Pow256(k - 1)
  }

  /** The k low bytes of n, most significant first. */
  function BigEndian(n: nat, k: nat): (s: seq<Byte>)
    ensures |s| == k
  {
    if k == 0 then [] else BigEndian(n / 256, k - 1) + [(n % 256) as Byte]
  }

  /** The number whose k bytes stand at pos, most significant first. */
  function NatAt(b: seq<Byte>, pos: nat, k: nat): (n: nat)
    requires pos + k <= |b|
    ensures n < Pow256(k)
  {
    if k == 0 then 0 else NatAt(b, pos, k - 1) * 256 + b[pos + k - 1] as int
  }

  function Bytes32(v: Int32): (s: seq<Byte>)
    ensures |s| == 4
  {
    BigEndian(Unsigned(v), 4)
  }

  function Bytes16(v: Int16): (s: seq<Byte>)
    ensures |s| == 2
  {
    BigEndian(if v < 0 then v + 0x1_0000 else v, 2)
  }

  function Int32At(b: seq<Byte>, pos: nat): (v: Int32)
    requires pos + 4 <= |b|
  {
    var n := NatAt(b, pos, 4);
    assert Pow256(4) == 0x1_0000_0000;
    if n < 0x8000_0000 then n else n - 0x1_0000_0000
  }

  function Int16At(b: seq<Byte>, pos: nat): (v: Int16)
    requires pos + 2 <= |b|
  {
    var n := NatAt(b, pos, 2);
    assert Pow256(2) == 0x1_0000;
    if n < 0x8000 then n else n - 0x1_0000
  }

  /** b holds the bytes of s at position pos. */
  ghost predicate Holds(b: seq<Byte>, pos: nat, s: seq<Byte>) {
    pos + |s| <= |b| && forall i :: 0 <= i < |s| ==> b[pos + i] == s[i]
  }

  lemma HoldsSplit(b: seq<Byte>, pos: nat, s: seq<Byte>, t: seq<Byte>)
    requires Holds(b, pos, s + t)
    ensures Holds(b, pos, s) && Holds(b, pos + |s|, t)
  {
    assert forall i :: 0 <= i < |s| ==> s[i] == (s + t)[i];
    forall i | 0 <= i < |t| ensures b[pos + |s| + i] == t[i] {
      assert (s + t)[|s| + i] == t[i];
      assert b[pos + (|s| + i)] == (s + t)[|s| + i];
    }
  }

  lemma {:induction false} BigEndianRoundTrip(b: seq<Byte>, pos: nat, n: nat, k: nat)
    requires n < Pow256(k) && Holds(b, pos, BigEndian(n, k))
    ensures NatAt(b, pos, k) == n
  {
    if k > 0 {
      var front := BigEndian(n / 256, k - 1);
      HoldsSplit(b, pos, front, [(n % 256) as Byte]);
      assert b[pos + (k - 1) + 0] == [(n % 256) as Byte][0];
      BigEndianRoundTrip(b, pos, n / 256, k - 1);
    }
  }

  /** Signed values survive the split into bytes, in both widths and for both signs. */
  lemma Int32RoundTrip(b: seq<Byte>, pos: nat, v: Int32)
    requires Holds(b, pos, Bytes32(v))
    ensures Int32At(b, pos) == v
  {
    assert Pow256(4) == 0x1_0000_0000;
    BigEndianRoundTrip(b, pos, Unsigned(v), 4);
  }

  lemma Int16RoundTrip(b: seq<Byte>, pos: nat, v: Int16)
    requires Holds(b, pos, Bytes16(v))
    ensures Int16At(b, pos) == v
  {
    assert Pow256(2) == 0x1_0000;
    BigEndianRoundTrip(b, pos, if v < 0 then v + 0x1_0000 else v, 2);
  }

  // ---------------------------------------------------------------- encoding

  function BytesOfString(s: seq<Byte>): seq<Byte>
    requires |s| <= MAX_COUNT
  {
    Bytes16(|s|) + s
  }

  function BytesOfInts(xs: seq<Int32>): (s: seq<Byte>) {
    if xs == [] then [] else BytesOfInts(xs[..|xs| - 1]) + Bytes32(xs[|xs| - 1])
  }

  predicate UsersFit(us: seq<User>) {
    forall i :: 0 <= i < |us| ==> |us[i].nickname| <= MAX_COUNT
  }

  function BytesOfUser(u: User): seq<Byte>
    requires |u.nickname| <= MAX_COUNT
  {
    Bytes32(u.uid) + BytesOfString(u.nickname)
  }

  function BytesOfUsers(us: seq<User>): (s: seq<Byte>)
    requires UsersFit(us)
  {
    if us == [] then [] else BytesOfUsers(us[..|us| - 1]) + BytesOfUser(us[|us| - 1])
  }

  function BytesOfCountedInts(xs: seq<Int32>): seq<Byte>
    requires |xs| <= MAX_COUNT
  {
    Bytes16(|xs|) + BytesOfInts(xs)
  }

  function BytesOfCountedUsers(us: seq<User>): seq<Byte>
    requires |us| <= MAX_COUNT && UsersFit(us)
  {
    Bytes16(|us|) + BytesOfUsers(us)
  }

  /** Lengths and counts are written as 16-bit signed integers. */
  predicate Fits(f: Field) {
    match f
    case Str(s) => |s| <= MAX_COUNT
    case Ints(xs) => |xs| <= MAX_COUNT
    case Users(us) => |us| <= MAX_COUNT && UsersFit(us)
    case _ => true
  }

  function Encode(f: Field): seq<Byte>
    requires Fits(f)
  {
    match f
    case I32(v) => Bytes32(v)
    case I16(v) => Bytes16(v)
    case I8(v) => [v]
    case Str(s) => BytesOfString(s)
    case Ints(xs) => BytesOfCountedInts(xs)
    case Users(us) => BytesOfCountedUsers(us)
  }

  predicate AllFit(fs: seq<Field>) {
    forall i :: 0 <= i < |fs| ==> Fits(fs[i])
  }

  function EncodeAll(fs: seq<Field>): seq<Byte>
    requires AllFit(fs)
  {
    if fs == [] then [] else EncodeAll(fs[..|fs| - 1]) + Encode(fs[|fs| - 1])
  }

  function KindOf(f: Field): Kind {
    match f
    case I32(_) => KI32
    case I16(_) => KI16
    case I8(_) => KI8
    case Str(_) => KStr
    case Ints(_) => KInts
    case Users(_) => KUsers
  }

  function Kinds(fs: seq<Field>): seq<Kind> {
    if fs == [] then [] else Kinds(fs[..|fs| - 1]) + [KindOf(fs[|fs| - 1])]
  }

  // ---------------------------------------------------------------- decoding

  /** A value read, and the cursor after it. */
  datatype Read<+T> = Read(value: T, next: nat)

  // In what follows limit is the length the header announced, which only popString consults.
  // None stands for a read past the bytes at hand or for the exception std::string raises on
  // a negative length.

  function StringAt(b: seq<Byte>, limit: int, pos: nat): Option<Read<seq<Byte>>> {
    if pos + 2 > |b| then None
    else
      var n := Int16At(b, pos);
      if n > limit - (pos + 2) then Some(Read([], pos + 2))
      else if n < 0 || pos + 2 + n > |b| then None
      else Some(Read(b[pos + 2..pos + 2 + n], pos + 2 + n))
  }

  function IntsAt(b: seq<Byte>, pos: nat, count: nat): Option<Read<seq<Int32>>> {
    if count == 0 then Some(Read([], pos))
    else
      match IntsAt(b, pos, count - 1)
      case None => None
      case Some(Read(xs, p)) =>
        if p + 4 > |b| then None else Some(Read(xs + [Int32At(b, p)], p + 4))
  }

  function UserAt(b: seq<Byte>, limit: int, pos: nat): Option<Read<User>> {
    if pos + 4 > |b| then None
    else
      match StringAt(b, limit, pos + 4)
      case None => None
      case Some(Read(s, p)) => Some(Read(User(Int32At(b, pos), s), p))
  }

  function UsersAt(b: seq<Byte>, limit: int, pos: nat, count: nat): Option<Read<seq<User>>> {
    if count == 0 then Some(Read([], pos))
    else
      match UsersAt(b, limit, pos, count - 1)
      case None => None
      case Some(Read(us, p)) =>
        match UserAt(b, limit, p)
        case None => None
        case Some(Read(u, q)) => Some(Read(us + [u], q))
  }

  /** A negative count ends this loop at once: its counter and bound are ints. */
  function CountedIntsAt(b: seq<Byte>, pos: nat): Option<Read<seq<Int32>>> {
    if pos + 2 > |b| then None else IntsAt(b, pos + 2, Max(Int16At(b, pos), 0))
  }

  /** A negative count becomes a huge size_t here, and the loop runs off the buffer. */
  function CountedUsersAt(b: seq<Byte>, limit: int, pos: nat): Option<Read<seq<User>>> {
    if pos + 2 > |b| || Int16At(b, pos) < 0 then None else UsersAt(b, limit, pos + 2, Int16At(b, pos))
  }

  function Decode(k: Kind, b: seq<Byte>, limit: int, pos: nat): Option<Read<Field>> {
    match k
    case KI32 => if pos + 4 > |b| then None else Some(Read(I32(Int32At(b, pos)), pos + 4))
    case KI16 => if pos + 2 > |b| then None else Some(Read(I16(Int16At(b, pos)), pos + 2))
    case KI8 => if pos + 1 > |b| then None else Some(Read(I8(b[pos]), pos + 1))
    case KStr =>
      var r := StringAt(b, limit, pos);
      if r.None? then None else Some(Read(Str(r.value.value), r.value.next))
    case KInts =>
      var r := CountedIntsAt(b, pos);
      if r.None? then None else Some(Read(Ints(r.value.value), r.value.next))
    case KUsers =>
      var r := CountedUsersAt(b, limit, pos);
      if r.None? then None else Some(Read(Users(r.value.value), r.value.next))
  }

  function DecodeAll(ks: seq<Kind>, b: seq<Byte>, limit: int, pos: nat): Option<Read<seq<Field>>> {
    if ks == [] then Some(Read([], pos))
    else
      var front := DecodeAll(ks[..|ks| - 1], b, limit, pos);
      if front.None? then None
      else
        var last := Decode(ks[|ks| - 1], b, limit, front.value.next);
        if last.None? then None else Some(Read(front.value.value + [last.value.value], last.value.next))
  }

  /**
   A string never reaches past the length the header announced: what is read is exactly the counted
   bytes when they lie within it, and a count beyond it yields the empty string and skips the count only.
   */
  lemma StringStaysInside(b: seq<Byte>, limit: int, pos: nat)
    requires StringAt(b, limit, pos).Some?
    ensures var r, n := StringAt(b, limit, pos).value, Int16At(b, pos);
            && r.next == pos + 2 + |r.value| <= Max(limit, pos + 2)
            && (pos + 2 + n <= limit ==> |r.value| == n && r.value == b[pos + 2..r.next])
            && (pos + 2 + n > limit ==> r.value == [])
  {
  }

  // ---------------------------------------------------------------- reading undoes writing

  lemma StringRoundTrip(b: seq<Byte>, limit: int, pos: nat, s: seq<Byte>)
    requires |s| <= MAX_COUNT && Holds(b, pos, BytesOfString(s)) && pos + 2 + |s| <= limit
    ensures StringAt(b, limit, pos) == Some(Read(s, pos + 2 + |s|))
  {
    HoldsSplit(b, pos, Bytes16(|s|), s);
    Int16RoundTrip(b, pos, |s|);
    assert b[pos + 2..pos + 2 + |s|] == s;
  }

  lemma {:induction false} IntsRoundTrip(b: seq<Byte>, pos: nat, xs: seq<Int32>)
    requires Holds(b, pos, BytesOfInts(xs))
    ensures IntsAt(b, pos, |xs|) == Some(Read(xs, pos + |BytesOfInts(xs)|))
  {
    hide Bytes32, Int32At;
    if xs != [] {
      var front, last := xs[..|xs| - 1], xs[|xs| - 1];
      HoldsSplit(b, pos, BytesOfInts(front), Bytes32(last));
      IntsRoundTrip(b, pos, front);
      Int32RoundTrip(b, pos + |BytesOfInts(front)|, last);
      assert xs == front + [last];
    }
  }

  lemma UserRoundTrip(b: seq<Byte>, limit: int, pos: nat, u: User)
    requires |u.nickname| <= MAX_COUNT && Holds(b, pos, BytesOfUser(u)) && pos + |BytesOfUser(u)| <= limit
    ensures UserAt(b, limit, pos) == Some(Read(u, pos + |BytesOfUser(u)|))
  {
    HoldsSplit(b, pos, Bytes32(u.uid), BytesOfString(u.nickname));
    Int32RoundTrip(b, pos, u.uid);
    StringRoundTrip(b, limit, pos + 4, u.nickname);
  }

  lemma UsersStep(b: seq<Byte>, limit: int, pos: nat, us: seq<User>, next: nat, end: nat)
    requires us != []
    requires UsersAt(b, limit, pos, |us| - 1) == Some(Read(us[..|us| - 1], next))
    requires UserAt(b, limit, next) == Some(Read(us[|us| - 1], end))
    ensures UsersAt(b, limit, pos, |us|) == Some(Read(us, end))
  {
    hide UserAt;
    assert us == us[..|us| - 1] + [us[|us| - 1]];
  }

  lemma {:induction false} UsersRoundTrip(b: seq<Byte>, limit: int, pos: nat, us: seq<User>)
    requires UsersFit(us) && Holds(b, pos, BytesOfUsers(us)) && pos + |BytesOfUsers(us)| <= limit
    ensures UsersAt(b, limit, pos, |us|) == Some(Read(us, pos + |BytesOfUsers(us)|))
  {
    hide UserAt, BytesOfUser;
    if us != [] {
      var front, last := us[..|us| - 1], us[|us| - 1];
      var head, tail := BytesOfUsers(front), BytesOfUser(last);
      var next := pos + |head|;
      HoldsSplit(b, pos, head, tail);
      UsersRoundTrip(b, limit, pos, front);
      UserRoundTrip(b, limit, next, last);
      UsersStep(b, limit, pos, us, next, next + |tail|);
    }
  }

  lemma CountRoundTrip(b: seq<Byte>, pos: nat, count: nat, body: seq<Byte>)
    requires count <= MAX_COUNT && Holds(b, pos, Bytes16(count) + body)
    ensures Int16At(b, pos) == count && Holds(b, pos + 2, body)
  {
    HoldsSplit(b, pos, Bytes16(count), body);
    Int16RoundTrip(b, pos, count);
  }

  lemma CountedIntsRoundTrip(xs: seq<Int32>, b: seq<Byte>, pos: nat)
    requires |xs| <= MAX_COUNT && Holds(b, pos, BytesOfCountedInts(xs))
    ensures CountedIntsAt(b, pos) == Some(Read(xs, pos + |BytesOfCountedInts(xs)|))
  {
    CountRoundTrip(b, pos, |xs|, BytesOfInts(xs));
    IntsRoundTrip(b, pos + 2, xs);
  }

  lemma CountedUsersRoundTrip(us: seq<User>, b: seq<Byte>, limit: int, pos: nat)
    requires |us| <= MAX_COUNT && UsersFit(us)
    requires Holds(b, pos, BytesOfCountedUsers(us)) && pos + |BytesOfCountedUsers(us)| <= limit
    ensures CountedUsersAt(b, limit, pos) == Some(Read(us, pos + |BytesOfCountedUsers(us)|))
  {
    hide BytesOfUsers, UsersAt, Int16At, Bytes16;
    CountRoundTrip(b, pos, |us|, BytesOfUsers(us));
    UsersRoundTrip(b, limit, pos + 2, us);
  }

  lemma FieldRoundTrip(f: Field, b: seq<Byte>, limit: int, pos: nat)
    requires Fits(f) && Holds(b, pos, Encode(f)) && pos + |Encode(f)| <= limit
    ensures Decode(KindOf(f), b, limit, pos) == Some(Read(f, pos + |Encode(f)|))
  {
    match f
    case I32(v) => Int32RoundTrip(b, pos, v);
    case I16(v) => Int16RoundTrip(b, pos, v);
    case I8(v) => assert b[pos + 0] == [v][0];
    case Str(s) => StringRoundTrip(b, limit, pos, s);
    case Ints(xs) => CountedIntsRoundTrip(xs, b, pos);
    case Users(us) => CountedUsersRoundTrip(us, b, limit, pos);
  }

  lemma DecodeNothing(b: seq<Byte>, limit: int, pos: nat)
    ensures Kinds([]) == [] && DecodeAll([], b, limit, pos) == Some(Read([], pos))
  {
  }

  lemma KindsStep(fs: seq<Field>)
    requires fs != []
    ensures var ks := Kinds(fs);
            ks != [] && ks[|ks| - 1] == KindOf(fs[|fs| - 1]) && ks[..|ks| - 1] == Kinds(fs[..|fs| - 1])
  {
  }

  lemma DecodeStep(ks: seq<Kind>, b: seq<Byte>, limit: int, pos: nat, fs: seq<Field>, next: nat, end: nat)
    requires ks != [] && fs != []
    requires DecodeAll(ks[..|ks| - 1], b, limit, pos) == Some(Read(fs[..|fs| - 1], next))
    requires Decode(ks[|ks| - 1], b, limit, next) == Some(Read(fs[|fs| - 1], end))
    ensures DecodeAll(ks, b, limit, pos) == Some(Read(fs, end))
  {
    hide Decode;
    assert fs == fs[..|fs| - 1] + [fs[|fs| - 1]];
  }

  /**
   Any sequence of fields written anywhere in a buffer is read back field for field, and the
   cursor ends exactly where the writer's did.
   */
  lemma {:induction false} RoundTrip(fs: seq<Field>, b: seq<Byte>, limit: int, pos: nat)
    requires AllFit(fs) && Holds(b, pos, EncodeAll(fs)) && pos + |EncodeAll(fs)| <= limit
    ensures DecodeAll(Kinds(fs), b, limit, pos) == Some(Read(fs, pos + |EncodeAll(fs)|))
  {
    hide Encode, Decode, DecodeAll, Kinds;
    if fs == [] {
      DecodeNothing(b, limit, pos);
    } else {
      var front, last := fs[..|fs| - 1], fs[|fs| - 1];
      var head, tail := EncodeAll(front), Encode(last);
      var next := pos + |head|;
      HoldsSplit(b, pos, head, tail);
      RoundTrip(front, b, limit, pos);
      FieldRoundTrip(last, b, limit, next);
      KindsStep(fs);
      DecodeStep(Kinds(fs), b, limit, pos, fs, next, next + |tail|);
    }
  }

  /** Two packets of the same layout with the same bytes carry the same fields. */
  lemma EncodingInjective(fs: seq<Field>, gs: seq<Field>)
    requires AllFit(fs) && AllFit(gs) && Kinds(fs) == Kinds(gs)
    requires EncodeAll(fs) == EncodeAll(gs)
    ensures fs == gs
  {
    var b := EncodeAll(fs);
    RoundTrip(fs, b, |b|, 0);
    RoundTrip(gs, b, |b|, 0);
  }
}
