/** The generated methods of `K8SObjectOverlay` and `K8SObjectOverlay_PathValue`, which read and write Go structs. */
module OverlayCodec {
  import opened Options
  import opened Bits
  import opened Varints
  import opened Wire
  import opened WireLaws
  import opened Buffers
  import Spec = OverlayMessages

  class PathValue {
    var path: seq<Byte>
    var unrecognized: seq<Byte>

    constructor ()
      ensures Value() == Spec.NO_PATH
    {
      path, unrecognized := [], [];
    }

    function Value(): Spec.PathMessage
      reads this
    {
      Message(Spec.PathValue(path), unrecognized)
    }

    method Size() returns (n: nat)
      requires |Spec.MarshalPath(Value())| <= MAX_INT64
      ensures n == |Spec.MarshalPath(Value())|
    {
      if |path| > 0 {
        PayloadFits(1, Text(path), 0);
      }
      n := TextSize(1, path);
      n := n + |unrecognized|;
    }

    method MarshalTo(buffer: array<Byte>, at: nat) returns (n: nat)
      requires at + |Spec.MarshalPath(Value())| <= buffer.Length <= MAX_INT64
      modifies buffer
      ensures n == |Spec.MarshalPath(Value())|
      ensures buffer[..] == Splice(old(buffer[..]), at, Spec.MarshalPath(Value()))
    {
      hide Repeated, Splice;
      var i := WriteText(buffer, at, 1, path);
      i := Copy(buffer, i, unrecognized);
      SpliceTwice(old(buffer[..]), at, Repeated(1, Text(path)), unrecognized);
      n := i - at;
    }

    method Unmarshal(data: seq<Byte>) returns (err: Option<Error>)
      requires |data| <= MAX_INT64
      modifies this
      ensures match err
              case None => Spec.UnmarshalPath(data, old(Value())) == Ok(Value())
              case Some(e) => Spec.UnmarshalPath(data, old(Value())) == Err(e)
      ensures Value() == Spec.LeftPath(data, old(Value()))
    {
      hide Frame, Decode, Left, Remains;
      var i := 0;
      ghost var m0 := Value();
      ReadStart(Spec.PATH_FIELDS, Spec.ApplyPath, Spec.PathCut(), data, m0);
      while i < |data|
        invariant i <= |data|
        invariant Remains(Spec.PATH_FIELDS, Spec.ApplyPath, Spec.PathCut(), data, m0, i, Value())
      {
        ReadOn(Spec.PATH_FIELDS, Spec.ApplyPath, Spec.PathCut(), data, m0, i, Value());
        var f := ReadField(Spec.PATH_FIELDS, data, i);
        if f.NoField? {
          return Some(f.error);
        }
        match f.token {
          case Bytes(field, bytes) =>
            if field == 1 {
              path := bytes;
            }
          case Unknown(raw) =>
            unrecognized := unrecognized + raw;
          case _ =>
        }
        i := i + f.n;
      }
      ReadEnd(Spec.PATH_FIELDS, Spec.ApplyPath, Spec.PathCut(), data, m0, Value());
      return None;
    }
  }

  function Values(ps: seq<PathValue>): (ms: seq<Spec.PathMessage>)
    reads ps
    ensures |ms| == |ps|
    ensures forall i | 0 <= i < |ps| :: ms[i] == ps[i].Value()
  {
    seq(|ps|, i requires 0 <= i < |ps| reads ps => ps[i].Value())
  }

  lemma ValuesAppend(ps: seq<PathValue>, p: PathValue)
    ensures Values(ps + [p]) == Values(ps) + [p.Value()]
  {
  }

  method WritePatch(buffer: array<Byte>, at: nat, p: PathValue) returns (end: nat)
    requires at + |Repeated(4, [Spec.MarshalPath(p.Value())])| <= buffer.Length <= MAX_INT64
    modifies buffer
    ensures end == at + |Repeated(4, [Spec.MarshalPath(p.Value())])|
    ensures buffer[..] == Splice(old(buffer[..]), at, Repeated(4, [Spec.MarshalPath(p.Value())]))
  {
    hide Encode, Spec.MarshalPath;
    ghost var bytes := Spec.MarshalPath(p.Value());
    assert Repeated(4, [bytes]) == DelimitedField(4, bytes);
    var size := p.Size();
    end := WriteHeader(buffer, at, 0x22, size);
    var n := p.MarshalTo(buffer, end);
    SpliceTwice(old(buffer[..]), at, [0x22] + Encode(|bytes|), bytes);
    end := end + n;
  }

  method WritePatches(buffer: array<Byte>, at: nat, ps: seq<PathValue>) returns (end: nat)
    requires at + |Repeated(4, Spec.Payloads(Values(ps)))| <= buffer.Length <= MAX_INT64
    modifies buffer
    ensures end == at + |Repeated(4, Spec.Payloads(Values(ps)))|
    ensures buffer[..] == Splice(old(buffer[..]), at, Repeated(4, Spec.Payloads(Values(ps))))
  {
    hide Repeated, Splice, Values, Spec.Payloads, Spec.MarshalPath;
    end := at;
    ghost var all := Spec.Payloads(Values(ps));
    ghost var before := buffer[..];
    assert all[..0] == [];
    RepeatedNone(4);
    SpliceNothing(before, at);
    for k := 0 to |ps|
      invariant end == at + |Repeated(4, all[..k])| <= buffer.Length
      invariant buffer[..] == Splice(before, at, Repeated(4, all[..k]))
    {
      RepeatedStep(4, all, k);
      end := WritePatch(buffer, end, ps[k]);
      SpliceTwice(before, at, Repeated(4, all[..k]), Repeated(4, [all[k]]));
    }
    assert all[..|ps|] == all;
  }

  method PatchesSize(ps: seq<PathValue>) returns (n: nat)
    requires |Repeated(4, Spec.Payloads(Values(ps)))| <= MAX_INT64
    ensures n == |Repeated(4, Spec.Payloads(Values(ps)))|
  {
    hide Spec.Payloads, Spec.MarshalPath;
    n := 0;
    ghost var all := Spec.Payloads(Values(ps));
    assert all[..0] == [];
    RepeatedNone(4);
    for k := 0 to |ps|
      invariant n == |Repeated(4, all[..k])|
    {
      RepeatedStep(4, all, k);
      PayloadFits(4, all, k);
      var l := ps[k].Size();
      var size := FieldSize(l);
      assert Repeated(4, [all[k]]) == DelimitedField(4, all[k]);
      n := n + size;
    }
    assert all[..|ps|] == all;
  }

  class K8SObjectOverlay {
    var apiVersion: seq<Byte>
    var kind: seq<Byte>
    var name: seq<Byte>
    var patches: seq<PathValue>
    var unrecognized: seq<Byte>

    constructor ()
      ensures Value() == Spec.NO_OVERLAY && patches == []
    {
      apiVersion, kind, name, patches, unrecognized := [], [], [], [], [];
    }

    function Known(): Spec.Overlay
      reads this, patches
    {
      Spec.Overlay(apiVersion, kind, name, Values(patches))
    }

    function Value(): Spec.OverlayMessage
      reads this, patches
    {
      Message(Known(), unrecognized)
    }

    method Size() returns (n: nat)
      requires |Spec.MarshalOverlay(Value())| <= MAX_INT64
      ensures n == |Spec.MarshalOverlay(Value())|
    {
      hide Repeated, Spec.Payloads;
      TextFits(1, apiVersion);
      TextFits(2, kind);
      TextFits(3, name);
      var n1 := TextSize(1, apiVersion);
      var n2 := TextSize(2, kind);
      var n3 := TextSize(3, name);
      var n4 := PatchesSize(patches);
      n := n1 + n2 + n3 + n4 + |unrecognized|;
    }

    /** Writes exactly `Size()` bytes, those of the message, and nothing outside them. */
    method MarshalTo(buffer: array<Byte>, at: nat) returns (n: nat)
      requires at + |Spec.MarshalOverlay(Value())| <= buffer.Length <= MAX_INT64
      modifies buffer
      ensures n == |old(Spec.MarshalOverlay(Value()))|
      ensures buffer[..] == Splice(old(buffer[..]), at, old(Spec.MarshalOverlay(Value())))
    {
      hide Repeated, Spec.Payloads, Splice, Values;
      ghost var before := buffer[..];
      ghost var f1, f2 := Repeated(1, Text(apiVersion)), Repeated(2, Text(kind));
      ghost var f3, f4 := Repeated(3, Text(name)), Repeated(4, Spec.Payloads(Values(patches)));
      var i := WriteText(buffer, at, 1, apiVersion);
      i := WriteText(buffer, i, 2, kind);
      SpliceTwice(before, at, f1, f2);
      i := WriteText(buffer, i, 3, name);
      SpliceTwice(before, at, f1 + f2, f3);
      i := WritePatches(buffer, i, patches);
      SpliceTwice(before, at, f1 + f2 + f3, f4);
      i := Copy(buffer, i, unrecognized);
      SpliceTwice(before, at, f1 + f2 + f3 + f4, unrecognized);
      n := i - at;
    }

    method Store(field: Int32, bytes: seq<Byte>) returns (err: Option<Error>)
      requires 1 <= field <= 4 && |bytes| <= MAX_INT64
      modifies this
      ensures unrecognized == old(unrecognized)
      ensures old(patches) <= patches && fresh(patches[|old(patches)|..])
      ensures match err
              case None => Spec.ApplyOverlay(old(Known()), Bytes(field, bytes)) == Ok(Known())
              case Some(e) =>
                && Spec.ApplyOverlay(old(Known()), Bytes(field, bytes)) == Err(e)
                && Spec.PatchCut(old(Known()), Bytes(field, bytes)) == Known()
    {
      hide Decode, Left;
      err := None;
      match field {
        case 1 => apiVersion := bytes;
        case 2 => kind := bytes;
        case 3 => name := bytes;
        case _ =>
          var p := new PathValue();
          err := p.Unmarshal(bytes);
          ValuesAppend(patches, p);
          patches := patches + [p];
      }
    }

    method Receive(token: Token) returns (err: Option<Error>)
      requires ForOverlay(token)
      modifies this
      ensures old(patches) <= patches && fresh(patches[|old(patches)|..])
      ensures match err
              case None => Update(Spec.ApplyOverlay, old(Value()), token) == Ok(Value())
              case Some(e) =>
                && Update(Spec.ApplyOverlay, old(Value()), token) == Err(e)
                && Message(Spec.PatchCut(old(Known()), token), old(unrecognized)) == Value()
    {
      hide Spec.ApplyOverlay, Spec.PatchCut;
      if token.Unknown? {
        unrecognized := unrecognized + token.raw;
        err := None;
      } else {
        err := Store(token.field, token.bytes);
      }
    }

    method Unmarshal(data: seq<Byte>) returns (err: Option<Error>)
      requires |data| <= MAX_INT64
      modifies this
      ensures old(patches) <= patches && fresh(patches[|old(patches)|..])
      ensures match err
              case None => Spec.UnmarshalOverlay(data, old(Value())) == Ok(Value())
              case Some(e) => Spec.UnmarshalOverlay(data, old(Value())) == Err(e)
      ensures Value() == Spec.LeftOverlay(data, old(Value()))
    {
      hide Frame, Decode, Left, Remains, Update, Spec.ApplyOverlay, Spec.PatchCut, Values, ForOverlay;
      var i := 0;
      ghost var m0 := Value();
      ReadStart(Spec.OVERLAY_FIELDS, Spec.ApplyOverlay, Spec.OverlayCut(), data, m0);
      while i < |data|
        invariant i <= |data|
        invariant old(patches) <= patches && fresh(patches[|old(patches)|..])
        invariant Remains(Spec.OVERLAY_FIELDS, Spec.ApplyOverlay, Spec.OverlayCut(), data, m0, i, Value())
      {
        ReadOn(Spec.OVERLAY_FIELDS, Spec.ApplyOverlay, Spec.OverlayCut(), data, m0, i, Value());
        var f := ReadField(Spec.OVERLAY_FIELDS, data, i);
        if f.NoField? {
          return Some(f.error);
        }
        OnlyDelimited(data, i);
        ghost var before := patches;
        err := Receive(f.token);
        Grown(old(patches), before, patches);
        if err.Some? {
          return;
        }
        i := i + f.n;
      }
      ReadEnd(Spec.OVERLAY_FIELDS, Spec.ApplyOverlay, Spec.OverlayCut(), data, m0, Value());
      return None;
    }
  }

  lemma Grown<T>(xs: seq<T>, ys: seq<T>, zs: seq<T>)
    requires xs <= ys <= zs
    ensures xs <= zs && zs[|xs|..] == ys[|xs|..] + zs[|ys|..]
  {
  }

  lemma TextFits(field: Int32, text: seq<Byte>)
    requires 1 <= field <= MAX_ONE_BYTE_FIELD
    ensures |text| <= |Repeated(field, Text(text))|
  {
    if text != [] {
      PayloadFits(field, Text(text), 0);
    }
  }

  predicate ForOverlay(token: Token) {
    token.Unknown? || (token.Bytes? && 1 <= token.field <= 4 && |token.bytes| <= MAX_INT64)
  }

  lemma OnlyDelimited(data: seq<Byte>, i: nat)
    requires i < |data| <= MAX_INT64
    ensures var f := Frame(Spec.OVERLAY_FIELDS, data[i..], i); f.Field? ==> ForOverlay(f.token)
  {
  }
}
