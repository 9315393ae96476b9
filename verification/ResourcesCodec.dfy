/** The generated methods of `Resources`. Go's `range` over a map visits its keys in an arbitrary order. */
module ResourcesCodec {
  import opened Options
  import opened Bits
  import opened Varints
  import opened Skipping
  import opened Wire
  import opened WireLaws
  import opened Buffers
  import opened Spec = ResourcesMessages

  class ResourcesStruct {
    var limits: map<Text, Text>
    var requests: map<Text, Text>
    var unrecognized: seq<Byte>

    constructor ()
      ensures Value() == NO_RESOURCES
    {
      limits, requests, unrecognized := map[], map[], [];
    }

    function Value(): ResourcesMessage
      reads this
    {
      Message(Resources(limits, requests), unrecognized)
    }

    /** The size is the length of the marshalled message, whatever orders the maps are visited in. */
    method Size() returns (n: nat)
      requires EntriesTotal(1, limits) + EntriesTotal(2, requests) + |unrecognized| <= MAX_INT64
      ensures forall l, r | Visits(l, limits) && Visits(r, requests) :: n == |MarshalResources(Value(), l, r)|
    {
      var n1 := MapSize(1, limits);
      var n2 := MapSize(2, requests);
      n := n1 + n2 + |unrecognized|;
      forall l, r | Visits(l, limits) && Visits(r, requests)
        ensures n == |MarshalResources(Value(), l, r)|
      {
        SizeInAnyOrder(1, l, limits);
        SizeInAnyOrder(2, r, requests);
      }
    }

    /** Writes the message in the orders the two `range` loops happen to take. */
    method MarshalTo(buffer: array<Byte>, at: nat) returns (n: nat, ghost l: seq<Text>, ghost r: seq<Text>)
      requires at + EntriesTotal(1, limits) + EntriesTotal(2, requests) + |unrecognized| <= buffer.Length <= MAX_INT64
      modifies buffer
      ensures Visits(l, limits) && Visits(r, requests)
      ensures n == |MarshalResources(Value(), l, r)| && at + n <= buffer.Length
      ensures buffer[..] == Splice(old(buffer[..]), at, MarshalResources(Value(), l, r))
    {
      hide Repeated, Splice, AllIn, Entries, EntriesTotal;
      var i;
      i, l := WriteMap(buffer, at, 1, limits);
      SizeInAnyOrder(1, l, limits);
      i, r := WriteMap(buffer, i, 2, requests);
      SizeInAnyOrder(2, r, requests);
      ghost var first, second := Repeated(1, Entries(l, limits)), Repeated(2, Entries(r, requests));
      SpliceTwice(old(buffer[..]), at, first, second);
      i := Copy(buffer, i, unrecognized);
      SpliceTwice(old(buffer[..]), at, first + second, unrecognized);
      n := i - at;
    }

    method Unmarshal(data: seq<Byte>) returns (err: Option<Error>)
      requires |data| <= MAX_INT64
      modifies this
      ensures match err
              case None => UnmarshalResources(data, old(Value())) == Ok(Value())
              case Some(e) => UnmarshalResources(data, old(Value())) == Err(e)
      ensures Value() == LeftResources(data, old(Value()))
    {
      hide Frame, Decode, Left, Remains, ScanEntry;
      var i := 0;
      ghost var m0 := Value();
      ReadStart(RESOURCES_FIELDS, ApplyResources, ResourcesCut(), data, m0);
      while i < |data|
        invariant i <= |data|
        invariant Remains(RESOURCES_FIELDS, ApplyResources, ResourcesCut(), data, m0, i, Value())
      {
        ReadOn(RESOURCES_FIELDS, ApplyResources, ResourcesCut(), data, m0, i, Value());
        var f := ReadField(RESOURCES_FIELDS, data, i);
        if f.NoField? {
          return Some(f.error);
        }
        OnlyEntries(data, i);
        if f.token.Unknown? {
          unrecognized := unrecognized + f.token.raw;
        } else {
          var entry := ReadEntry(data, f.token.base, i + f.n);
          if entry.Err? {
            return Some(entry.error);
          }
          var (key, value) := entry.value;
          if f.token.field == 1 {
            limits := limits[key := value];
          } else {
            requests := requests[key := value];
          }
        }
        i := i + f.n;
      }
      ReadEnd(RESOURCES_FIELDS, ApplyResources, ResourcesCut(), data, m0, Value());
      return None;
    }
  }

  lemma OnlyEntries(data: seq<Byte>, i: nat)
    requires i < |data| <= MAX_INT64
    ensures var f := Frame(RESOURCES_FIELDS, data[i..], i);
            f.Field? && !f.token.Unknown? ==>
              && f.token.Entry? && 1 <= f.token.field <= 2 && f.token.base <= |data|
              && f.token.rest == data[f.token.base..] && f.token.base + f.token.length == i + f.n <= |data|
  {
  }

  method MapSize(field: Int32, m: map<Text, Text>) returns (n: nat)
    requires 1 <= field <= 2 && EntriesTotal(field, m) <= MAX_INT64
    ensures n == EntriesTotal(field, m)
  {
    hide Encode;
    n := 0;
    var todo := m;
    while todo != map[]
      invariant n + EntriesTotal(field, todo) == EntriesTotal(field, m)
      decreases |todo|
    {
      var key :| key in todo;
      var value := todo[key];
      EntriesTotalWithout(field, todo, key);
      EntryLength(field, key, value);
      var k := FieldSize(|key|);
      var v := FieldSize(|value|);
      var size := FieldSize(k + v);
      n := n + size;
      todo := todo - {key};
    }
  }

  lemma EntryLength(field: Int32, key: Text, value: Text)
    requires 1 <= field <= 2
    ensures |EntryBytes(key, value)| == 1 + |Encode(|key|)| + |key| + (1 + |Encode(|value|)| + |value|)
    ensures EntrySize(field, key, value) == 1 + |Encode(|EntryBytes(key, value)|)| + |EntryBytes(key, value)|
  {
  }

  method WriteEntry(buffer: array<Byte>, at: nat, field: Int32, key: Text, value: Text) returns (end: nat)
    requires 1 <= field <= 2 && at + EntrySize(field, key, value) <= buffer.Length <= MAX_INT64
    modifies buffer
    ensures end == at + EntrySize(field, key, value)
    ensures buffer[..] == Splice(old(buffer[..]), at, DelimitedField(field, EntryBytes(key, value)))
  {
    hide Encode, Splice;
    EntryLength(field, key, value);
    ghost var before := buffer[..];
    ghost var header := [8 * field + 2] + Encode(|EntryBytes(key, value)|);
    var k := FieldSize(|key|);
    var v := FieldSize(|value|);
    end := WriteHeader(buffer, at, 8 * field + 2, k + v);
    end := WriteHeader(buffer, end, 0x0a, |key|);
    ghost var w1 := [0x0a] + Encode(|key|);
    SpliceTwice(before, at, header, w1);
    end := Copy(buffer, end, key);
    SpliceTwice(before, at, header + w1, key);
    end := WriteHeader(buffer, end, 0x12, |value|);
    ghost var w2 := [0x12] + Encode(|value|);
    SpliceTwice(before, at, header + w1 + key, w2);
    end := Copy(buffer, end, value);
    SpliceTwice(before, at, header + w1 + key + w2, value);
    assert header + w1 + key + w2 + value == DelimitedField(field, EntryBytes(key, value));
  }

  method WriteMap(buffer: array<Byte>, at: nat, field: Int32, m: map<Text, Text>)
    returns (end: nat, ghost order: seq<Text>)
    requires 1 <= field <= 2 && at + EntriesTotal(field, m) <= buffer.Length <= MAX_INT64
    modifies buffer
    ensures Visits(order, m) && end == at + |Repeated(field, Entries(order, m))| <= buffer.Length
    ensures buffer[..] == Splice(old(buffer[..]), at, Repeated(field, Entries(order, m)))
  {
    hide Splice, EntrySize, EntryBytes, Repeated, DelimitedField, Visiting, AllIn;
    VisitNone(m);
    ghost var before := buffer[..];
    end, order := at, [];
    SpliceNothing(before, at);
    RepeatedNone(field);
    var todo := m;
    while todo != map[]
      invariant AllIn(order, m) && Visiting(order, todo, m) && todo.Keys <= m.Keys
      invariant end == at + |Repeated(field, Entries(order, m))|
      invariant end + EntriesTotal(field, todo) <= buffer.Length
      invariant buffer[..] == Splice(before, at, Repeated(field, Entries(order, m)))
      decreases |todo|
    {
      var key :| key in todo;
      EntriesTotalWithout(field, todo, key);
      VisitOne(order, todo, m, key);
      end := WriteEntry(buffer, end, field, key, m[key]);
      OneMoreEntry(field, order, m, key);
      SpliceTwice(before, at, Repeated(field, Entries(order, m)), DelimitedField(field, EntryBytes(key, m[key])));
      order := order + [key];
      todo := todo - {key};
    }
    VisitDone(order, m);
  }

  /** A `range` over `m` that went through `order` and has `todo` left. */
  ghost predicate Visiting(order: seq<Text>, todo: map<Text, Text>, m: map<Text, Text>) {
    && AllIn(order, m)
    && (forall i | 0 <= i < |order| :: order[i] !in todo)
    && (forall key | key in m :: key in order || key in todo)
    && (forall key | key in todo :: key in m && todo[key] == m[key])
    && (forall i, j | 0 <= i < j < |order| :: order[i] != order[j])
  }

  lemma VisitOne(order: seq<Text>, todo: map<Text, Text>, m: map<Text, Text>, key: Text)
    requires Visiting(order, todo, m) && key in todo
    ensures todo[key] == m[key] && AllIn(order + [key], m) && Visiting(order + [key], todo - {key}, m)
  {
    assert (order + [key])[|order|] == key;
  }

  lemma VisitNone(m: map<Text, Text>)
    ensures AllIn([], m) && Visiting([], m, m)
  {
  }

  lemma VisitDone(order: seq<Text>, m: map<Text, Text>)
    requires Visiting(order, map[], m)
    ensures Visits(order, m)
  {
  }

  lemma OneMoreEntry(field: Int32, order: seq<Text>, m: map<Text, Text>, key: Text)
    requires 1 <= field <= 2 && AllIn(order, m) && key in m
    ensures Repeated(field, Entries(order + [key], m))
            == Repeated(field, Entries(order, m)) + DelimitedField(field, EntryBytes(key, m[key]))
    ensures EntrySize(field, key, m[key]) == |DelimitedField(field, EntryBytes(key, m[key]))|
  {
    hide EntryBytes;
    EntriesAppend(order, m, key);
    RepeatedAppends(field, Entries(order, m), [EntryBytes(key, m[key])]);
    assert Repeated(field, [EntryBytes(key, m[key])]) == DelimitedField(field, EntryBytes(key, m[key]));
  }

  /** The inner loop of `Unmarshal`, over one map entry in `data[start..end]`. */
  method ReadEntry(data: seq<Byte>, start: nat, end: nat) returns (r: Result<(Text, Text)>)
    requires start <= end <= |data| <= MAX_INT64
    ensures r == ScanEntry(data[start..], end - start, start, 0, [], [])
  {
    hide Decoded, Skip, Announced, ToInt32, ScanEntry;
    var key: Text, value: Text := [], [];
    var i := start;
    ghost var s := data[start..];
    while i < end
      invariant start <= i <= |data|
      invariant ScanEntry(s, end - start, start, i - start, key, value) == ScanEntry(s, end - start, start, 0, [], [])
      decreases |data| - i
    {
      ScanOne(data, start, end, i, key, value);
      var tag := DecodeVarint(data, i, 64);
      if tag.Bad? {
        return Err(tag.error);
      }
      var field := ToInt32(tag.value / 8);
      if field == 1 || field == 2 {
        var span := ReadAnnounced(data, tag.next, start);
        if span.NoSpan? {
          return Err(span.error);
        }
        assert s[span.start - start..span.end - start] == data[span.start..span.end];
        if field == 1 {
          key := data[span.start..span.end];
        } else {
          value := data[span.start..span.end];
        }
        i := span.end;
      } else {
        var skipped := SkipField(data[i..]);
        if skipped.SkipError? {
          return Err(skipped.error);
        }
        if skipped.n < 0 {
          return Err(InvalidLength);
        }
        var next := WrapAdd(i, skipped.n);
        if next > end {
          return Err(UnexpectedEOF);
        }
        if next < 0 {
          return Err(IndexOutOfRange);
        }
        i := next;
      }
    }
    ScanNone(s, end - start, i - start, start, key, value);
    return Ok((key, value));
  }

  /** One turn of that loop. */
  lemma ScanOne(data: seq<Byte>, start: nat, end: nat, i: nat, key: Text, value: Text)
    requires start <= i < end <= |data| <= MAX_INT64
    ensures var s := data[start..];
            && s[i - start..] == data[i..]
            && ScanEntry(s, end - start, start, i - start, key, value)
               == match Decoded(data[i..], 64)
                  case Bad(e) => Err(e)
                  case Value(tag, n) =>
                    if ToInt32(tag / 8) == 1 || ToInt32(tag / 8) == 2 then
                      match Announced(s, i - start + n, start)
                      case NoSpan(e) => Err(e)
                      case Span(from, to) =>
                        if ToInt32(tag / 8) == 1 then ScanEntry(s, end - start, start, to, s[from..to], value)
                        else ScanEntry(s, end - start, start, to, key, s[from..to])
                    else
                      match Skip(data[i..])
                      case SkipError(e) => Err(e)
                      case Skipped(m) =>
                        if m < 0 then Err(InvalidLength)
                        else if WrapAdd(i, m) > end then Err(UnexpectedEOF)
                        else if WrapAdd(i, m) < 0 then Err(IndexOutOfRange)
                        else ScanEntry(s, end - start, start, i - start + m, key, value)
  {
    hide Decoded, Skip, Announced, ToInt32;
    var s := data[start..];
    assert s[i - start..] == data[i..];
  }

  lemma ScanNone(s: seq<Byte>, length: nat, i: nat, base: nat, key: Text, value: Text)
    requires length <= i <= |s| && base + |s| <= MAX_INT64
    ensures ScanEntry(s, length, base, i, key, value) == Ok((key, value))
  {
  }
}
