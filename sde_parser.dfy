/**
  The static-data-export archive walker: it reads PKZIP local file headers
  (PKWARE APPNOTE.TXT, section 4.3.7) one after the other, keeps the entries whose
  file name contains the path of a requested document, and hands their compressed
  data to the inflater and the YAML decoder, both of which are parameters here.
*/
module SdeParser {
  import opened Base

  /** The documents a caller can ask for. */
  datatype ParseRequest = Blueprints | Constellation | Region | Solarsystem | TypeIds | TypeMaterials

  /** A decoded document, tagged with the request that selected it. */
  datatype ParseResult<Y> = ParseResult(request: ParseRequest, document: Y)

  datatype ParseError =
    | UnexpectedEof       // a read ran past the end of the input
    | InvalidCompression  // the compression method is not deflate
    | InvalidUtf8         // the file name is not well-formed UTF-8

  /** The local file header signature, read big-endian (the bytes "PK\x03\x04"). */
  const LocalHeaderSignature: nat := 0x504B_0304

  /** The compression field read big-endian: the bytes 08 00, method 8 (deflate). */
  const DeflateField: nat := 0x0800

  /** Size of the fixed part of a local file header. */
  const HeaderSize: nat := 30

  /** The path a request's document has inside the archive. */
  function Path(r: ParseRequest): (p: string)
    ensures |p| > 0
    ensures forall i :: 0 <= i < |p| ==> p[i] as int < 0x80
  {
    match r
    case Blueprints => "sde/fsd/blueprints.yaml"
    case Constellation => "constellation.staticdata"
    case Region => "region.staticdata"
    case Solarsystem => "solarsystem.staticdata"
    case TypeIds => "sde/fsd/typeIDs.yaml"
    case TypeMaterials => "sde/fsd/typeMaterials.yaml"
  }

  /** Distinct requests have distinct paths. */
  lemma PathInjective(a: ParseRequest, b: ParseRequest)
    ensures Path(a) == Path(b) ==> a == b
  {
    if a != b {
      assert Path(a)[..3] != Path(b)[..3] || Path(a)[8..11] != Path(b)[8..11] || |Path(a)| != |Path(b)|;
    }
  }

  /** The bytes of an ASCII string. */
  function AsciiBytes(s: string): (b: seq<byte>)
    requires forall i :: 0 <= i < |s| ==> s[i] as int < 0x80
    ensures |b| == |s|
    ensures forall i :: 0 <= i < |s| ==> b[i] == s[i] as int
  {
    if s == [] then []
    else
      var n := |s| - 1;
      assert s[n] as int < 0x80;
      AsciiBytes(s[..n]) + [s[n] as int]
  }

  // ---------------------------------------------------------------------------
  // Fixed-width fields
  // ---------------------------------------------------------------------------

  function U16LE(s: seq<byte>, i: nat): (r: nat)
    requires i + 2 <= |s|
  {
    s[i] as int + 0x100 * s[i + 1] as int
  }

  function U16BE(s: seq<byte>, i: nat): (r: nat)
    requires i + 2 <= |s|
  {
    0x100 * s[i] as int + s[i + 1] as int
  }

  function U32LE(s: seq<byte>, i: nat): (r: nat)
    requires i + 4 <= |s|
  {
    U16LE(s, i) + 0x1_0000 * U16LE(s, i + 2)
  }

  function U32BE(s: seq<byte>, i: nat): (r: nat)
    requires i + 4 <= |s|
  {
    0x1_0000 * U16BE(s, i) + U16BE(s, i + 2)
  }

  /** The big-endian compression field equals 0x0800 exactly for the bytes 08 00. */
  lemma DeflateFieldBytes(s: seq<byte>, i: nat)
    requires i + 2 <= |s|
    ensures U16BE(s, i) == DeflateField <==> s[i] == 8 && s[i + 1] == 0
  {
  }

  /** The big-endian signature matches exactly the bytes 50 4B 03 04. */
  lemma SignatureBytes(s: seq<byte>, i: nat)
    requires i + 4 <= |s|
    ensures U32BE(s, i) == LocalHeaderSignature <==> s[i..i + 4] == [0x50, 0x4B, 3, 4]
  {
    if U32BE(s, i) == LocalHeaderSignature {
      assert s[i] == 0x50 && s[i + 1] == 0x4B && s[i + 2] == 3 && s[i + 3] == 4;
    }
  }

  function Le16(v: nat): (b: seq<byte>)
    requires v < 0x1_0000
    ensures |b| == 2
  {
    [v % 0x100, v / 0x100]
  }

  function Le32(v: nat): (b: seq<byte>)
    requires v < 0x1_0000_0000
    ensures |b| == 4
  {
    Le16(v % 0x1_0000) + Le16(v / 0x1_0000)
  }

  // ---------------------------------------------------------------------------
  // UTF-8 (the check behind String::from_utf8)
  // ---------------------------------------------------------------------------

  predicate Continuation(b: byte)
  {
    0x80 <= b <= 0xBF
  }

  /**
    Length of the well-formed UTF-8 character at the start of `s` (Unicode,
    Table 3-7: no overlong forms, no surrogates, nothing above U+10FFFF), or 0 when
    `s` does not start with one.
  */
  function CharLength(s: seq<byte>): (n: nat)
    ensures n <= 4 && n <= |s|
  {
    if s == [] then 0
    else if s[0] < 0x80 then 1
    else if 0xC2 <= s[0] <= 0xDF then
      if |s| >= 2 && Continuation(s[1]) then 2 else 0
    else if 0xE0 <= s[0] <= 0xEF then
      if |s| >= 3 && Continuation(s[2]) &&
         (if s[0] == 0xE0 then 0xA0 <= s[1] <= 0xBF
          else if s[0] == 0xED then 0x80 <= s[1] <= 0x9F
          else Continuation(s[1]))
      then 3 else 0
    else if 0xF0 <= s[0] <= 0xF4 then
      if |s| >= 4 && Continuation(s[2]) && Continuation(s[3]) &&
         (if s[0] == 0xF0 then 0x90 <= s[1] <= 0xBF
          else if s[0] == 0xF4 then 0x80 <= s[1] <= 0x8F
          else Continuation(s[1]))
      then 4 else 0
    else 0
  }

  /** Well-formed UTF-8: a sequence of well-formed characters. */
  predicate ValidUtf8(s: seq<byte>)
    decreases |s|
  {
    s == [] || (CharLength(s) > 0 && ValidUtf8(s[CharLength(s)..]))
  }

  /** ASCII names, such as every requested path, are well-formed UTF-8. */
  lemma {:induction false} AsciiIsUtf8(s: seq<byte>)
    requires forall i :: 0 <= i < |s| ==> s[i] < 0x80
    ensures ValidUtf8(s)
    decreases |s|
  {
    if s != [] {
      AsciiIsUtf8(s[1..]);
    }
  }

  /** A character is recognised from its own bytes, whatever follows it. */
  lemma CharLengthPrefix(a: seq<byte>, b: seq<byte>)
    requires CharLength(a) > 0
    ensures CharLength(a + b) == CharLength(a)
  {
    assert forall k :: 0 <= k < |a| ==> (a + b)[k] == a[k];
  }

  /** Well-formed UTF-8 is closed under concatenation. */
  lemma {:induction false} Utf8Concat(a: seq<byte>, b: seq<byte>)
    requires ValidUtf8(a) && ValidUtf8(b)
    ensures ValidUtf8(a + b)
    decreases |a|
  {
    if a != [] {
      var n := CharLength(a);
      assert n > 0 && ValidUtf8(a[n..]);
      CharLengthPrefix(a, b);
      assert (a + b)[n..] == a[n..] + b;
      Utf8Concat(a[n..], b);
      assert a + b != [] && CharLength(a + b) == n;
    } else {
      assert a + b == b;
    }
  }

  // ---------------------------------------------------------------------------
  // Substring test (str::contains)
  // ---------------------------------------------------------------------------

  /** `needle` occurs in `hay`; the empty needle occurs everywhere. */
  predicate Contains(hay: seq<byte>, needle: seq<byte>)
    decreases |hay|
  {
    if |needle| > |hay| then false
    else hay[..|needle|] == needle || (hay != [] && Contains(hay[1..], needle))
  }

  /** `needle` sits at offset `i` of `hay`. */
  predicate OccursAt(hay: seq<byte>, needle: seq<byte>, i: nat)
  {
    i + |needle| <= |hay| && hay[i..i + |needle|] == needle
  }

  /** `Contains` holds exactly when the needle sits at some offset of the haystack. */
  lemma {:induction false} ContainsIff(hay: seq<byte>, needle: seq<byte>)
    ensures Contains(hay, needle) <==> exists i: nat :: OccursAt(hay, needle, i)
    decreases |hay|
  {
    if |needle| <= |hay| && hay != [] {
      ContainsIff(hay[1..], needle);
      if Contains(hay, needle) {
        if hay[..|needle|] == needle {
          assert OccursAt(hay, needle, 0);
        } else {
          var j: nat :| OccursAt(hay[1..], needle, j);
          assert hay[j + 1..j + 1 + |needle|] == hay[1..][j..j + |needle|];
          assert OccursAt(hay, needle, j + 1);
        }
      }
      if exists i: nat :: OccursAt(hay, needle, i) {
        var i: nat :| OccursAt(hay, needle, i);
        if i > 0 {
          assert hay[1..][i - 1..i - 1 + |needle|] == hay[i..i + |needle|];
          assert OccursAt(hay[1..], needle, i - 1);
        }
      }
    } else if |needle| <= |hay| {
      assert OccursAt(hay, needle, 0);
    }
  }

  // ---------------------------------------------------------------------------
  // The walk
  // ---------------------------------------------------------------------------

  /** Whether the entry named `name` is selected by `r`. */
  predicate Selects(r: ParseRequest, name: seq<byte>)
  {
    Contains(name, AsciiBytes(Path(r)))
  }

  /**
    An entry named by a UTF-8 directory prefix followed by a request's path passes
    the UTF-8 check and is selected by that request.
  */
  lemma PrefixedPathSelected(prefix: seq<byte>, r: ParseRequest)
    requires ValidUtf8(prefix)
    ensures ValidUtf8(prefix + AsciiBytes(Path(r)))
    ensures Selects(r, prefix + AsciiBytes(Path(r)))
  {
    var p := AsciiBytes(Path(r));
    AsciiIsUtf8(p);
    Utf8Concat(prefix, p);
    assert (prefix + p)[|prefix|..|prefix| + |p|] == p;
    assert OccursAt(prefix + p, p, |prefix|);
    ContainsIff(prefix + p, p);
  }

  /**
    The results one entry contributes: in request order, one document per request
    whose path occurs in the entry's name, decoded from the inflated data.
  */
  function Matches<Y>(requests: seq<ParseRequest>, name: seq<byte>, data: seq<byte>, yaml: (ParseRequest, seq<byte>) -> Y): (r: seq<ParseResult<Y>>)
    ensures (forall i :: 0 <= i < |requests| ==> !Selects(requests[i], name)) ==> r == []
    decreases |requests|
  {
    if requests == [] then []
    else
      var r := requests[|requests| - 1];
      Matches(requests[..|requests| - 1], name, data, yaml)
        + (if Selects(r, name) then [ParseResult(r, yaml(r, data))] else [])
  }

  /** Puts one entry's results in front of the rest, unless the rest failed. */
  function Prepend<Y>(here: seq<ParseResult<Y>>, rest: Result<seq<ParseResult<Y>>, ParseError>): (r: Result<seq<ParseResult<Y>>, ParseError>)
  {
    if rest.Err? then rest else Ok(here + rest.value)
  }

  /** The fields of a local file header the walker reads, with the header at `pos`. */
  function DataLength(s: seq<byte>, pos: nat): (r: nat)
    requires pos + HeaderSize <= |s|
  {
    U32LE(s, pos + 18)
  }

  function NameLength(s: seq<byte>, pos: nat): (r: nat)
    requires pos + HeaderSize <= |s|
  {
    U16LE(s, pos + 26)
  }

  /** What reading one local file header yields. */
  datatype Step = End | Fail(error: ParseError) | Next(name: seq<byte>, compressed: seq<byte>, next: nat)

  /**
    Reading the local file header at `pos`: the signature is read first and
    anything else ends the walk; then the compression field, the header's length
    fields, the name (which must be UTF-8) and the compressed data, each read
    failing when the input runs short. The extra-field length is read but its
    bytes are not skipped, so the next header is looked for right after the data.
  */
  function ReadEntry(s: seq<byte>, pos: nat): (st: Step)
    ensures st.Next? ==> pos + HeaderSize <= st.next <= |s|
  {
    if pos + 4 > |s| then Fail(UnexpectedEof)
    else if U32BE(s, pos) != LocalHeaderSignature then End
    else if pos + 10 > |s| then Fail(UnexpectedEof)
    else if U16BE(s, pos + 8) != DeflateField then Fail(InvalidCompression)
    else if pos + HeaderSize > |s| then Fail(UnexpectedEof)
    else
      var nameStart := pos + HeaderSize;
      var dataStart := nameStart + NameLength(s, pos);
      var next := dataStart + DataLength(s, pos);
      if dataStart > |s| then Fail(UnexpectedEof)
      else if !ValidUtf8(s[nameStart..dataStart]) then Fail(InvalidUtf8)
      else if next > |s| then Fail(UnexpectedEof)
      else Next(s[nameStart..dataStart], s[dataStart..next], next)
  }

  /**
    What `parse` returns when the reader stands at `pos`: entry after entry, the
    matches of each, until a header without the signature; any error discards
    the results.
  */
  function Walk<Y>(s: seq<byte>, pos: nat, requests: seq<ParseRequest>,
                   inflate: seq<byte> -> seq<byte>, yaml: (ParseRequest, seq<byte>) -> Y)
    : (r: Result<seq<ParseResult<Y>>, ParseError>)
    ensures r.Ok? ==> pos + 4 <= |s|
    decreases |s| - pos
  {
    match ReadEntry(s, pos)
    case End => Ok([])
    case Fail(e) => Err(e)
    case Next(name, compressed, next) =>
      Prepend(Matches(requests, name, inflate(compressed), yaml), Walk(s, next, requests, inflate, yaml))
  }

  /** Collecting results entry by entry is associative. */
  lemma PrependAssoc<Y>(a: seq<ParseResult<Y>>, b: seq<ParseResult<Y>>, rest: Result<seq<ParseResult<Y>>, ParseError>)
    ensures Prepend(a, Prepend(b, rest)) == Prepend(a + b, rest)
  {
    if rest.Ok? {
      assert a + (b + rest.value) == (a + b) + rest.value;
    }
  }

  /** The loop over the requests for one entry (`for x in &requests`). */
  method CollectMatches<Y>(requests: seq<ParseRequest>, filename: seq<byte>, data: seq<byte>,
                           yaml: (ParseRequest, seq<byte>) -> Y)
    returns (found: seq<ParseResult<Y>>)
    ensures found == Matches(requests, filename, data, yaml)
  {
    found := [];
    for j := 0 to |requests|
      invariant found == Matches(requests[..j], filename, data, yaml)
    {
      assert requests[..j + 1][..j] == requests[..j];
      var x := requests[j];
      if Contains(filename, AsciiBytes(Path(x))) {
        found := found + [ParseResult(x, yaml(x, data))];
      }
    }
    assert requests[..|requests|] == requests;
  }

  /** The reads of one iteration of the header loop, at the cursor `pos`. */
  method ReadHeader(s: seq<byte>, pos: nat) returns (st: Step)
    ensures st == ReadEntry(s, pos)
  {
    if pos + 4 > |s| {
      return Fail(UnexpectedEof);
    }
    if U32BE(s, pos) != LocalHeaderSignature {
      return End;
    }
    // version and flags are skipped
    if pos + 10 > |s| {
      return Fail(UnexpectedEof);
    }
    if U16BE(s, pos + 8) != DeflateField {
      return Fail(InvalidCompression);
    }
    // modification time and date, crc, uncompressed size and extra-field length are skipped
    if pos + HeaderSize > |s| {
      return Fail(UnexpectedEof);
    }
    var dataLength := DataLength(s, pos);
    var fileNameLength := NameLength(s, pos);
    var nameStart := pos + HeaderSize;
    var dataStart := nameStart + fileNameLength;
    if dataStart > |s| {
      return Fail(UnexpectedEof);
    }
    var filename := s[nameStart..dataStart];
    if !ValidUtf8(filename) {
      return Fail(InvalidUtf8);
    }
    var next := dataStart + dataLength;
    if next > |s| {
      return Fail(UnexpectedEof);
    }
    return Next(filename, s[dataStart..next], next);
  }

  /**
    `EveSdeParser::parse`: a cursor over the archive bytes, a loop over local
    headers, and an inner loop over the requests.
  */
  method Parse<Y>(s: seq<byte>, requests: seq<ParseRequest>,
                  inflate: seq<byte> -> seq<byte>, yaml: (ParseRequest, seq<byte>) -> Y)
    returns (r: Result<seq<ParseResult<Y>>, ParseError>)
    ensures r == Walk(s, 0, requests, inflate, yaml)
  {
    var results: seq<ParseResult<Y>> := [];
    var cursor := 0;
    ghost var whole := Walk(s, 0, requests, inflate, yaml);
    assert whole.Ok? ==> [] + whole.value == whole.value;
    while true
      invariant cursor <= |s|
      invariant whole == Prepend(results, Walk(s, cursor, requests, inflate, yaml))
      decreases |s| - cursor
    {
      var st := ReadHeader(s, cursor);
      match st
      case End =>
        assert results + [] == results;
        break;
      case Fail(e) =>
        return Err(e);
      case Next(filename, compressed, next) =>
        var data := inflate(compressed);
        var found := CollectMatches(requests, filename, data, yaml);
        PrependAssoc(results, found, Walk(s, next, requests, inflate, yaml));
        results := results + found;
        cursor := next;
    }
    return Ok(results);
  }

  // ---------------------------------------------------------------------------
  // Properties of the walk
  // ---------------------------------------------------------------------------

  /** A header-sized block whose first four bytes are not the signature ends the walk with no results. */
  lemma StopsAtOtherSignature<Y>(s: seq<byte>, pos: nat, requests: seq<ParseRequest>,
                                 inflate: seq<byte> -> seq<byte>, yaml: (ParseRequest, seq<byte>) -> Y)
    requires pos + 4 <= |s| && s[pos..pos + 4] != [0x50, 0x4B, 3, 4]
    ensures Walk(s, pos, requests, inflate, yaml) == Ok([])
  {
    SignatureBytes(s, pos);
  }

  /** A header with the signature but a compression method other than 08 00 fails the whole parse. */
  lemma RejectsOtherCompression<Y>(s: seq<byte>, pos: nat, requests: seq<ParseRequest>,
                                   inflate: seq<byte> -> seq<byte>, yaml: (ParseRequest, seq<byte>) -> Y)
    requires pos + 10 <= |s| && s[pos..pos + 4] == [0x50, 0x4B, 3, 4]
    requires !(s[pos + 8] == 8 && s[pos + 9] == 0)
    ensures Walk(s, pos, requests, inflate, yaml) == Err(InvalidCompression)
  {
    SignatureBytes(s, pos);
    DeflateFieldBytes(s, pos + 8);
  }

  /**
    A file name that is not well-formed UTF-8 makes the whole parse fail, whatever
    the data after it and whatever was collected before.
  */
  lemma RejectsNonUtf8Name<Y>(s: seq<byte>, pos: nat, requests: seq<ParseRequest>,
                              inflate: seq<byte> -> seq<byte>, yaml: (ParseRequest, seq<byte>) -> Y)
    requires pos + HeaderSize <= |s|
    requires s[pos..pos + 4] == [0x50, 0x4B, 3, 4] && s[pos + 8] == 8 && s[pos + 9] == 0
    requires pos + HeaderSize + NameLength(s, pos) <= |s|
    requires !ValidUtf8(s[pos + HeaderSize..pos + HeaderSize + NameLength(s, pos)])
    ensures Walk(s, pos, requests, inflate, yaml) == Err(InvalidUtf8)
  {
    SignatureBytes(s, pos);
    DeflateFieldBytes(s, pos + 8);
  }

  /**
    One step of the walk: a complete entry contributes its matches and the walk
    resumes exactly 30 + name length + compressed size bytes further on, whatever
    the extra-field length says; a later error discards the entry's results.
  */
  lemma {:induction false} WalkStep<Y>(s: seq<byte>, pos: nat, requests: seq<ParseRequest>,
                                      inflate: seq<byte> -> seq<byte>, yaml: (ParseRequest, seq<byte>) -> Y)
    requires pos + HeaderSize <= |s|
    requires s[pos..pos + 4] == [0x50, 0x4B, 3, 4] && s[pos + 8] == 8 && s[pos + 9] == 0
    requires pos + HeaderSize + NameLength(s, pos) + DataLength(s, pos) <= |s|
    requires ValidUtf8(s[pos + HeaderSize..pos + HeaderSize + NameLength(s, pos)])
    ensures
      var nameEnd := pos + HeaderSize + NameLength(s, pos);
      var next := nameEnd + DataLength(s, pos);
      Walk(s, pos, requests, inflate, yaml) ==
        Prepend(Matches(requests, s[pos + HeaderSize..nameEnd], inflate(s[nameEnd..next]), yaml),
                Walk(s, next, requests, inflate, yaml))
  {
    var nameEnd := pos + HeaderSize + NameLength(s, pos);
    var next := nameEnd + DataLength(s, pos);
    assert ReadEntry(s, pos) == Next(s[pos + HeaderSize..nameEnd], s[nameEnd..next], next) by {
      SignatureBytes(s, pos);
      DeflateFieldBytes(s, pos + 8);
    }
    WalkNext(s, pos, s[pos + HeaderSize..nameEnd], s[nameEnd..next], next, requests, inflate, yaml);
  }

  /** Four bytes at `q` that are not the local header signature. */
  predicate ForeignAt(s: seq<byte>, q: nat)
  {
    q + 4 <= |s| && U32BE(s, q) != LocalHeaderSignature
  }

  /**
    A walk only succeeds when four bytes that are not a signature follow its
    position somewhere: input that ends without them is an error.
  */
  lemma {:induction false} WalkOkNeedsForeignHeader<Y>(s: seq<byte>, pos: nat, requests: seq<ParseRequest>,
                                                      inflate: seq<byte> -> seq<byte>, yaml: (ParseRequest, seq<byte>) -> Y)
    ensures Walk(s, pos, requests, inflate, yaml).Ok? ==> exists q: nat :: pos <= q && ForeignAt(s, q)
    decreases |s| - pos
  {
    var st := ReadEntry(s, pos);
    if st.End? {
      assert ForeignAt(s, pos);
    } else if st.Next? {
      WalkOkNeedsForeignHeader(s, st.next, requests, inflate, yaml);
    }
  }

  /**
    A header with the signature that is cut short, in its fixed part or in the name
    and data its length fields announce, makes the whole parse fail.
  */
  lemma TruncatedEntryFails<Y>(s: seq<byte>, pos: nat, requests: seq<ParseRequest>,
                               inflate: seq<byte> -> seq<byte>, yaml: (ParseRequest, seq<byte>) -> Y)
    requires pos + 4 <= |s| && s[pos..pos + 4] == [0x50, 0x4B, 3, 4]
    requires pos + HeaderSize > |s| || pos + HeaderSize + NameLength(s, pos) + DataLength(s, pos) > |s|
    ensures Walk(s, pos, requests, inflate, yaml).Err?
  {
    SignatureBytes(s, pos);
  }

  /** Each result of an entry comes from a request whose path occurs in the entry's name. */
  lemma {:induction false} MatchesSound<Y>(requests: seq<ParseRequest>, name: seq<byte>, data: seq<byte>,
                                          yaml: (ParseRequest, seq<byte>) -> Y)
    ensures |Matches(requests, name, data, yaml)| <= |requests|
    ensures forall m :: m in Matches(requests, name, data, yaml) ==>
      m.request in requests && Selects(m.request, name) && m.document == yaml(m.request, data)
    decreases |requests|
  {
    if requests != [] {
      MatchesSound(requests[..|requests| - 1], name, data, yaml);
    }
  }

  /** Every request whose path occurs in the entry's name yields a result for that entry. */
  lemma {:induction false} MatchesComplete<Y>(requests: seq<ParseRequest>, name: seq<byte>, data: seq<byte>,
                                             yaml: (ParseRequest, seq<byte>) -> Y, j: nat)
    requires j < |requests| && Selects(requests[j], name)
    ensures ParseResult(requests[j], yaml(requests[j], data)) in Matches(requests, name, data, yaml)
    decreases |requests|
  {
    var init := requests[..|requests| - 1];
    if j < |requests| - 1 {
      assert init[j] == requests[j];
      MatchesComplete(init, name, data, yaml, j);
    }
  }

  // ---------------------------------------------------------------------------
  // Archives built from entries
  // ---------------------------------------------------------------------------

  /** The 16-bit little-endian encoding reads back as the value it encodes. */
  lemma Le16Value(v: nat)
    requires v < 0x1_0000
    ensures U16LE(Le16(v), 0) == v
  {
  }

  /** The 32-bit little-endian encoding reads back as the value it encodes. */
  lemma Le32Value(v: nat)
    requires v < 0x1_0000_0000
    ensures U32LE(Le32(v), 0) == v
  {
    Le16Value(v % 0x1_0000);
    Le16Value(v / 0x1_0000);
    assert U16LE(Le32(v), 2) == U16LE(Le16(v / 0x1_0000), 0);
  }

  /**
    A local file header: version 20, no flags, deflate, zero time, date and crc,
    the given sizes, no extra field.
  */
  function LocalHeader(nameLength: nat, dataLength: nat, uncompressedSize: nat): (h: seq<byte>)
    requires nameLength < 0x1_0000 && dataLength < 0x1_0000_0000 && uncompressedSize < 0x1_0000_0000
    ensures |h| == HeaderSize
  {
    var d, u, n := Le32(dataLength), Le32(uncompressedSize), Le16(nameLength);
    [0x50, 0x4B, 3, 4, 20, 0, 0, 0, 8, 0, 0, 0, 0, 0, 0, 0, 0, 0,
     d[0], d[1], d[2], d[3], u[0], u[1], u[2], u[3], n[0], n[1], 0, 0]
  }

  /** At `pos` the archive holds an encoded header, then the name, then the compressed data. */
  predicate EntryAt(s: seq<byte>, pos: nat, name: seq<byte>, data: seq<byte>, uncompressedSize: nat)
    requires |name| < 0x1_0000 && |data| < 0x1_0000_0000 && uncompressedSize < 0x1_0000_0000
  {
    && pos + HeaderSize + |name| + |data| <= |s|
    && s[pos..pos + HeaderSize] == LocalHeader(|name|, |data|, uncompressedSize)
    && s[pos + HeaderSize..pos + HeaderSize + |name|] == name
    && s[pos + HeaderSize + |name|..pos + HeaderSize + |name| + |data|] == data
  }

  /**
    At `pos` stands a header with the signature and 08 00 compression, recording
    the given name and data lengths, followed by a UTF-8 name and the data.
  */
  predicate CompleteAt(s: seq<byte>, pos: nat, nameLength: nat, dataLength: nat)
  {
    && pos + HeaderSize + nameLength + dataLength <= |s|
    && U32BE(s, pos) == LocalHeaderSignature && U16BE(s, pos + 8) == DeflateField
    && NameLength(s, pos) == nameLength && DataLength(s, pos) == dataLength
    && ValidUtf8(s[pos + HeaderSize..pos + HeaderSize + nameLength])
  }

  /**
    A header with the signature, 08 00 compression, a UTF-8 name of the length it
    records and room for the compressed data it records reads as that entry.
  */
  lemma ReadCompleteEntry(s: seq<byte>, pos: nat, nameLength: nat, dataLength: nat)
    requires CompleteAt(s, pos, nameLength, dataLength)
    ensures ReadEntry(s, pos) ==
      Next(s[pos + HeaderSize..pos + HeaderSize + nameLength],
           s[pos + HeaderSize + nameLength..pos + HeaderSize + nameLength + dataLength],
           pos + HeaderSize + nameLength + dataLength)
  {
  }

  /** The fields the walker reads from an encoded header are the ones it was built with. */
  lemma LocalHeaderFields(s: seq<byte>, pos: nat, nameLength: nat, dataLength: nat, uncompressedSize: nat)
    requires nameLength < 0x1_0000 && dataLength < 0x1_0000_0000 && uncompressedSize < 0x1_0000_0000
    requires pos + HeaderSize <= |s|
    requires s[pos..pos + HeaderSize] == LocalHeader(nameLength, dataLength, uncompressedSize)
    ensures U32BE(s, pos) == LocalHeaderSignature && U16BE(s, pos + 8) == DeflateField
    ensures NameLength(s, pos) == nameLength && DataLength(s, pos) == dataLength
  {
    var h := LocalHeader(nameLength, dataLength, uncompressedSize);
    var d, n := Le32(dataLength), Le16(nameLength);
    assert forall k :: 0 <= k < HeaderSize ==> s[pos + k] == s[pos..pos + HeaderSize][k] == h[k];
    assert s[pos] == s[pos..pos + HeaderSize][0] == h[0] == 0x50;
    assert s[pos + 1] == s[pos..pos + HeaderSize][1] == h[1] == 0x4B;
    assert s[pos + 2] == s[pos..pos + HeaderSize][2] == h[2] == 3;
    assert s[pos + 3] == s[pos..pos + HeaderSize][3] == h[3] == 4;
    assert s[pos + 8] == 8 && s[pos + 9] == 0;
    assert s[pos + 18] == d[0] && s[pos + 19] == d[1] && s[pos + 20] == d[2] && s[pos + 21] == d[3];
    assert s[pos + 26] == n[0] && s[pos + 27] == n[1];
    Le32Value(dataLength);
    Le16Value(nameLength);
    assert U16LE(s, pos + 18) == U16LE(d, 0);
    assert U16LE(s, pos + 20) == U16LE(d, 2);
    assert U16LE(s, pos + 26) == U16LE(n, 0);
  }

  /** `ReadCompleteEntry` with the name and the data the slices hold. */
  lemma ReadCompleteParts(s: seq<byte>, pos: nat, name: seq<byte>, data: seq<byte>)
    requires CompleteAt(s, pos, |name|, |data|)
    requires s[pos + HeaderSize..pos + HeaderSize + |name|] == name
    requires s[pos + HeaderSize + |name|..pos + HeaderSize + |name| + |data|] == data
    ensures ReadEntry(s, pos) == Next(name, data, pos + HeaderSize + |name| + |data|)
  {
    ReadCompleteEntry(s, pos, |name|, |data|);
  }

  /** An encoded entry with a UTF-8 name passes every check the walker makes. */
  lemma EntryComplete(s: seq<byte>, pos: nat, name: seq<byte>, data: seq<byte>, uncompressedSize: nat)
    requires |name| < 0x1_0000 && |data| < 0x1_0000_0000 && uncompressedSize < 0x1_0000_0000
    requires ValidUtf8(name) && EntryAt(s, pos, name, data, uncompressedSize)
    ensures CompleteAt(s, pos, |name|, |data|)
  {
    LocalHeaderFields(s, pos, |name|, |data|, uncompressedSize);
  }

  /**
    Reading an encoded entry with a UTF-8 name gives back its name and compressed
    data, and the next header is looked for right after the entry.
  */
  lemma ReadLocalEntry(s: seq<byte>, pos: nat, name: seq<byte>, data: seq<byte>, uncompressedSize: nat)
    requires |name| < 0x1_0000 && |data| < 0x1_0000_0000 && uncompressedSize < 0x1_0000_0000
    requires ValidUtf8(name) && EntryAt(s, pos, name, data, uncompressedSize)
    ensures ReadEntry(s, pos) == Next(name, data, pos + HeaderSize + |name| + |data|)
  {
    EntryComplete(s, pos, name, data, uncompressedSize);
    ReadCompleteParts(s, pos, name, data);
  }

  /**
    The walk reads back an entry it is given: at an encoded entry with a UTF-8 name
    it yields that entry's matches on the data it was built with and resumes right
    after the entry.
  */
  lemma WalkLocalEntry<Y>(s: seq<byte>, pos: nat, name: seq<byte>, data: seq<byte>, uncompressedSize: nat, next: nat,
                          requests: seq<ParseRequest>, inflate: seq<byte> -> seq<byte>, yaml: (ParseRequest, seq<byte>) -> Y)
    requires |name| < 0x1_0000 && |data| < 0x1_0000_0000 && uncompressedSize < 0x1_0000_0000
    requires ValidUtf8(name) && EntryAt(s, pos, name, data, uncompressedSize)
    requires next == pos + HeaderSize + |name| + |data|
    ensures Walk(s, pos, requests, inflate, yaml) ==
      Prepend(Matches(requests, name, inflate(data), yaml), Walk(s, next, requests, inflate, yaml))
  {
    ReadLocalEntry(s, pos, name, data, uncompressedSize);
    WalkNext(s, pos, name, data, next, requests, inflate, yaml);
  }

  /** The walk at a header that reads as an entry: its matches, then the walk after it. */
  lemma WalkNext<Y>(s: seq<byte>, pos: nat, name: seq<byte>, data: seq<byte>, next: nat, requests: seq<ParseRequest>,
                    inflate: seq<byte> -> seq<byte>, yaml: (ParseRequest, seq<byte>) -> Y)
    requires ReadEntry(s, pos) == Next(name, data, next)
    ensures Walk(s, pos, requests, inflate, yaml) ==
      Prepend(Matches(requests, name, inflate(data), yaml), Walk(s, next, requests, inflate, yaml))
  {
  }
}
