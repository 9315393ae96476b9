/** What a failed `Unmarshal` leaves in the message. */
module WirePartial {
  import opened Bits
  import opened Wire
  import opened WireLaws

  /** Without an error it is the message that was read. */
  lemma {:induction false} LeftIsDecoded<K>(schema: Schema, apply: Apply<K>, cut: Cut<K>, s: seq<Byte>, base: nat,
                                            m: Message<K>)
    requires base + |s| <= MAX_INT64 && Decode(schema, apply, s, base, m).Ok?
    ensures Decode(schema, apply, s, base, m) == Ok(Left(schema, apply, cut, s, base, m))
    decreases |s|
  {
    hide Frame, Update;
    if s != [] {
      var f := Frame(schema, s, base);
      LeftIsDecoded(schema, apply, cut, s[f.n..], base + f.n, Update(apply, m, f.token).value);
    }
  }

  /**
   The first `n` bytes are read into `m'`, and the field behind them cannot be read: `left` is what there was of it.
   */
  ghost predicate StopsAt<K>(schema: Schema, apply: Apply<K>, cut: Cut<K>, s: seq<Byte>, base: nat, m: Message<K>,
                             n: nat, left: Message<K>)
    requires base + |s| <= MAX_INT64
  {
    && n < |s| && Decode(schema, apply, s[..n], base, m).Ok?
    && var m' := Decode(schema, apply, s[..n], base, m).value;
       match Frame(schema, s[n..], base + n)
       case NoField(_) => left == Message(cut.unframed(m'.known, s[n..]), m'.unknown)
       case Field(token, _) =>
         Update(apply, m', token).Err? && left == Message(cut.refused(m'.known, token), m'.unknown)
  }

  /** With an error it is the message read from the bytes before the first field that cannot be read, cut there. */
  lemma {:induction false} LeftIsPrefix<K>(schema: Schema, apply: Apply<K>, cut: Cut<K>, s: seq<Byte>, base: nat,
                                           m: Message<K>) returns (n: nat)
    requires MapFree(schema) && base + |s| <= MAX_INT64 && Decode(schema, apply, s, base, m).Err?
    ensures StopsAt(schema, apply, cut, s, base, m, n, Left(schema, apply, cut, s, base, m))
    decreases |s|
  {
    hide Frame, Update;
    n := 0;
    var f := Frame(schema, s, base);
    if f.Field? && Update(apply, m, f.token).Ok? {
      var m' := Update(apply, m, f.token).value;
      n := LeftIsPrefix(schema, apply, cut, s[f.n..], base + f.n, m');
      AfterField(schema, apply, cut, s, base, m, n, Left(schema, apply, cut, s, base, m));
      n := f.n + n;
    } else {
      assert s[..0] == [] && s[0..] == s;
    }
  }

  lemma AfterField<K>(schema: Schema, apply: Apply<K>, cut: Cut<K>, s: seq<Byte>, base: nat, m: Message<K>, n: nat,
                      left: Message<K>)
    requires MapFree(schema) && 0 < |s| && base + |s| <= MAX_INT64
    requires Frame(schema, s, base).Field? && Update(apply, m, Frame(schema, s, base).token).Ok?
    requires var f := Frame(schema, s, base);
             StopsAt(schema, apply, cut, s[f.n..], base + f.n, Update(apply, m, f.token).value, n, left)
    ensures StopsAt(schema, apply, cut, s, base, m, Frame(schema, s, base).n + n, left)
  {
    hide Frame, Update, Decode;
    var f := Frame(schema, s, base);
    var a := s[..f.n + n];
    assert a[..f.n] == s[..f.n] && a[f.n..] == s[f.n..][..n] && s[f.n..][n..] == s[f.n + n..];
    FrameIsLocal(schema, s, base, a, base, f.n);
    FirstField(schema, apply, a, base, m);
  }
}
