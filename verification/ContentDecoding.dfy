/**
 Undoing the content codings of a response, last applied first (section 8.4 of RFC 9110), each layer
 within the body limit.
 */
module ContentDecoding {
  import opened Wrappers
  import opened BodyObservation

  /** The compression library: a decoder fails on an unknown coding or on bytes that are not its own. */
  datatype Codecs = Codecs(encode: (string, Bytes) -> Bytes, decode: (string, Bytes) -> Option<Bytes>,
                           known: string -> bool)

  ghost predicate Inverse(codecs: Codecs) {
    forall name, bytes :: codecs.known(name) ==> codecs.decode(name, codecs.encode(name, bytes)) == Some(bytes)
  }

  /** The codings of a header, in the order they were applied; identity changes nothing. */
  function Applied(lower: string -> string, parts: seq<string>): seq<string> {
    if parts == [] then []
    else
      var name := lower(parts[0]);
      (if parts[0] == "" || name == "identity" then [] else [name]) + Applied(lower, parts[1..])
  }

  function DecodeLayer(codecs: Codecs, maximum: nat, name: string, bytes: Bytes): Option<Bytes> {
    var decoded := codecs.decode(name, bytes);
    if decoded.Some? && |decoded.value| <= maximum then decoded else None
  }

  function DecodeAll(codecs: Codecs, maximum: nat, names: seq<string>, bytes: Bytes): Option<Bytes> {
    if names == [] then Some(bytes)
    else
      match DecodeLayer(codecs, maximum, names[|names| - 1], bytes)
      case None => None
      case Some(decoded) => DecodeAll(codecs, maximum, names[..|names| - 1], decoded)
  }

  function EncodeAll(codecs: Codecs, names: seq<string>, content: Bytes): Bytes {
    if names == [] then content
    else codecs.encode(names[|names| - 1], EncodeAll(codecs, names[..|names| - 1], content))
  }

  method TryDecodeContentEncoding(codecs: Codecs, maximum: nat, lower: string -> string, parts: seq<string>,
                                  bytes: Bytes) returns (decoded: Option<Bytes>)
    ensures decoded == DecodeAll(codecs, maximum, Applied(lower, parts), bytes)
  {
    var encodings := Applied(lower, parts);
    if |encodings| == 0 {
      return Some(bytes);
    }
    assert encodings[..|encodings|] == encodings;
    var current := bytes;
    var index := |encodings|;
    while index > 0
      invariant 0 <= index <= |encodings|
      invariant DecodeAll(codecs, maximum, encodings, bytes) == DecodeAll(codecs, maximum, encodings[..index], current)
    {
      index := index - 1;
      assert encodings[..index + 1][..index] == encodings[..index];
      var layer := DecodeLayer(codecs, maximum, encodings[index], current);
      if layer.None? {
        return None;
      }
      current := layer.value;
    }
    decoded := Some(current);
  }

  /** Every layer of the encoded content, the content itself included, stays within the limit. */
  ghost predicate LayersFit(codecs: Codecs, maximum: nat, names: seq<string>, content: Bytes) {
    forall n :: 0 <= n < |names| ==> |EncodeAll(codecs, names[..n], content)| <= maximum
  }

  /** Decoding gives back what was encoded, exactly when every layer it uncovers is within the limit. */
  lemma {:induction false} DecodesIffLayersFit(codecs: Codecs, maximum: nat, names: seq<string>, content: Bytes)
    requires Inverse(codecs) && forall n :: 0 <= n < |names| ==> codecs.known(names[n])
    ensures DecodeAll(codecs, maximum, names, EncodeAll(codecs, names, content))
         == if LayersFit(codecs, maximum, names, content) then Some(content) else None
  {
    if names != [] {
      var last := |names| - 1;
      var front := names[..last];
      DecodesIffLayersFit(codecs, maximum, front, content);
      var inner := EncodeAll(codecs, front, content);
      assert codecs.decode(names[last], codecs.encode(names[last], inner)) == Some(inner);
      assert forall n :: 0 <= n < last ==> front[..n] == names[..n];
      if LayersFit(codecs, maximum, names, content) {
        assert |EncodeAll(codecs, names[..last], content)| <= maximum;
        forall n | 0 <= n < last ensures |EncodeAll(codecs, front[..n], content)| <= maximum {
          assert |EncodeAll(codecs, names[..n], content)| <= maximum;
        }
      } else {
        var n :| 0 <= n < |names| && |EncodeAll(codecs, names[..n], content)| > maximum;
        assert n < last ==> |EncodeAll(codecs, front[..n], content)| > maximum;
      }
    }
  }

  // ---- which codings a header names

  lemma {:induction false} AppliedConcat(lower: string -> string, a: seq<string>, b: seq<string>)
    ensures Applied(lower, a + b) == Applied(lower, a) + Applied(lower, b)
  {
    if a == [] {
      assert a + b == b;
    } else {
      assert (a + b)[0] == a[0] && (a + b)[1..] == a[1..] + b;
      AppliedConcat(lower, a[1..], b);
    }
  }

  /** An empty part or an identity coding anywhere in the header is as good as absent. */
  lemma IdentityIsAbsent(lower: string -> string, a: seq<string>, part: string, b: seq<string>)
    requires part == "" || lower(part) == "identity"
    ensures Applied(lower, a + [part] + b) == Applied(lower, a + b)
  {
    AppliedConcat(lower, a + [part], b);
    AppliedConcat(lower, a, [part]);
    AppliedConcat(lower, a, b);
    assert Applied(lower, [part]) == Applied(lower, [part][1..]);
    assert Applied(lower, a) + [] == Applied(lower, a);
  }

  /** Every other part is one coding, in lower case, in the order of the header. */
  lemma {:induction false} CodingsInOrder(lower: string -> string, parts: seq<string>)
    requires forall i :: 0 <= i < |parts| ==> parts[i] != "" && lower(parts[i]) != "identity"
    ensures |Applied(lower, parts)| == |parts|
    ensures forall i :: 0 <= i < |parts| ==> Applied(lower, parts)[i] == lower(parts[i])
  {
    if parts != [] {
      CodingsInOrder(lower, parts[1..]);
    }
  }

  // ---- any bytes

  /** Each layer is what the coding under it decodes to, within the limit; the outermost is the body as received. */
  ghost predicate Peels(codecs: Codecs, maximum: nat, names: seq<string>, bytes: Bytes, layers: seq<Bytes>) {
    && |layers| == |names| + 1 && layers[|names|] == bytes
    && forall i :: 0 <= i < |names| ==> codecs.decode(names[i], layers[i + 1]) == Some(layers[i])
                                        && |layers[i]| <= maximum
  }

  /** Decoding yields content exactly when every layer decodes within the limit, and then what lies innermost. */
  lemma {:induction false} DecodesExactly(codecs: Codecs, maximum: nat, names: seq<string>, bytes: Bytes,
                                          content: Bytes)
    ensures DecodeAll(codecs, maximum, names, bytes) == Some(content) <==>
      exists layers :: Peels(codecs, maximum, names, bytes, layers) && layers[0] == content
    decreases |names|
  {
    if names == [] {
      assert Peels(codecs, maximum, names, bytes, [bytes]);
    } else {
      var n := |names| - 1;
      var layer := codecs.decode(names[n], bytes);
      if layer.Some? && |layer.value| <= maximum {
        DecodesExactly(codecs, maximum, names[..n], layer.value, content);
        if DecodeAll(codecs, maximum, names, bytes) == Some(content) {
          var layers :| Peels(codecs, maximum, names[..n], layer.value, layers) && layers[0] == content;
          assert Peels(codecs, maximum, names, bytes, layers + [bytes]);
        }
        if exists layers :: Peels(codecs, maximum, names, bytes, layers) && layers[0] == content {
          var layers :| Peels(codecs, maximum, names, bytes, layers) && layers[0] == content;
          assert Peels(codecs, maximum, names[..n], layer.value, layers[..n + 1]);
        }
      }
    }
  }
}
