/**
 * The URL path handling of easyServer_v1/webhandler.cc: percent-decoding and
 * the normalisation that keeps a request inside the document root.  A char
 * stands for a byte.
 */
module SafePath {
  import opened Options

  // ---------------------------------------------------------------------
  // Percent-decoding
  // ---------------------------------------------------------------------

  predicate IsHex(c: char) {
    '0' <= c <= '9' || 'a' <= c <= 'f' || 'A' <= c <= 'F'
  }

  function HexValue(c: char): (v: int)
    requires IsHex(c)
    ensures 0 <= v < 16
  {
    if '0' <= c <= '9' then c as int - '0' as int
    else if 'a' <= c <= 'f' then c as int - 'a' as int + 10
    else c as int - 'A' as int + 10
  }

  /** isspace in the C locale. */
  predicate IsSpace(c: char) {
    c == ' ' || '\t' <= c <= '\r'
  }

  function HexDigits(s: string, acc: int): int {
    if s == [] || !IsHex(s[0]) then acc else HexDigits(s[1..], 16 * acc + HexValue(s[0]))
  }

  /** strtol(s, nullptr, 16) on the two-character strings it is given here;
      two characters are too few for a 0x prefix to matter. */
  function Strtol(s: string): int {
    if s == [] then 0
    else if IsSpace(s[0]) then Strtol(s[1..])
    else if s[0] == '-' then -HexDigits(s[1..], 0)
    else if s[0] == '+' then HexDigits(s[1..], 0)
    else HexDigits(s, 0)
  }

  /** The cast of that number to a byte. */
  function DecodedByte(s: string): char {
    (Strtol(s) % 256) as char
  }

  const LOWER: string := "0123456789abcdef"
  const UPPER: string := "0123456789ABCDEF"

  /** The digit c, in either case, denotes v. */
  ghost predicate Denotes(c: char, v: int) {
    0 <= v < 16 && (c == LOWER[v] || c == UPPER[v])
  }

  /** The hexadecimal digits are those of the two lists, and each has the value
      of its position. */
  lemma DigitIff(c: char, v: int)
    ensures Denotes(c, v) <==> IsHex(c) && HexValue(c) == v
  {
  }

  /** Two digits, in either case, decode to the byte they spell. */
  lemma HexPair(a: char, b: char, h: int, l: int)
    requires Denotes(a, h) && Denotes(b, l)
    ensures DecodedByte([a, b]) == (16 * h + l) as char
  {
    DigitIff(a, h);
    DigitIff(b, l);
    hide Denotes, IsHex, HexValue;
    assert [a, b][1..] == [b] && [b][1..] == [];
    assert HexDigits([], 16 * h + l) == 16 * h + l;
    assert HexDigits([b], h) == 16 * h + l;
    assert HexDigits([a, b], 0) == 16 * h + l;
    hide HexDigits;
    NotSigned(a);
    assert Strtol([a, b]) == HexDigits([a, b], 0);
    hide Strtol;
  }

  lemma NotSigned(c: char)
    requires IsHex(c)
    ensures !IsSpace(c) && c != '-' && c != '+'
  {
  }

  ghost predicate NoDigit(c: char) {
    forall v :: !Denotes(c, v)
  }

  /** What is made of any other pair: a digit and something else count for the
      digit, which a minus sign makes negative; the rest is zero. */
  lemma OddPair(a: char, b: char)
    requires NoDigit(a) || NoDigit(b)
    ensures forall h :: Denotes(a, h) ==> DecodedByte([a, b]) == h as char
    ensures forall l :: Denotes(b, l) ==>
              DecodedByte([a, b]) ==
                if a == '-' && l > 0 then (256 - l) as char
                else if a in [' ', '\t', '\n', '\U{000B}', '\U{000C}', '\r', '+', '-'] then l as char
                else 0 as char
    ensures NoDigit(a) && NoDigit(b) ==> DecodedByte([a, b]) == 0 as char
  {
    forall c ensures NoDigit(c) <==> !IsHex(c) {
      NoDigitIff(c);
    }
    forall c, v | Denotes(c, v) ensures IsHex(c) && HexValue(c) == v {
      DigitIff(c, v);
    }
    hide Denotes, NoDigit;
    OddStrtol(a, b);
  }

  lemma NoDigitIff(c: char)
    ensures NoDigit(c) <==> !IsHex(c)
  {
    if IsHex(c) {
      DigitIff(c, HexValue(c));
    } else {
      forall v ensures !Denotes(c, v) {
        DigitIff(c, v);
      }
    }
  }

  lemma OddStrtol(a: char, b: char)
    requires !IsHex(a) || !IsHex(b)
    ensures IsHex(a) ==> Strtol([a, b]) == HexValue(a)
    ensures !IsHex(a) && !IsHex(b) ==> Strtol([a, b]) == 0
    ensures IsHex(b) ==>
              Strtol([a, b]) == if a == '-' then -HexValue(b) else if IsSpace(a) || a == '+' then HexValue(b) else 0
  {
    hide HexValue;
    assert [a, b][1..] == [b] && [b][1..] == [];
    assert HexDigits([], 0) == 0;
    assert HexDigits([b], 0) == if IsHex(b) then HexValue(b) else 0;
    assert Strtol([b]) == if IsHex(b) then HexValue(b) else 0 by {
      assert Strtol([]) == 0;
      if IsHex(b) {
        NotSigned(b);
      }
    }
    assert IsHex(a) && !IsHex(b) ==> HexDigits([b], HexValue(a)) == HexValue(a);
    if IsHex(a) {
      NotSigned(a);
    }
  }

  function Decode(s: string): string {
    if s == [] then []
    else if s[0] == '%' then
      if |s| > 2 then [DecodedByte(s[1..3])] + Decode(s[3..]) else Decode(s[1..])
    else if s[0] == '+' then " " + Decode(s[1..])
    else [s[0]] + Decode(s[1..])
  }

  lemma DecodeStep(s: string)
    requires s != []
    ensures Decode(s) ==
            if s[0] == '%' then
              if |s| > 2 then [DecodedByte(s[1..3])] + Decode(s[3..]) else Decode(s[1..])
            else if s[0] == '+' then " " + Decode(s[1..])
            else [s[0]] + Decode(s[1..])
  {
  }

  /** e is an encoding of s: each byte stands for itself, except that a space
      may be written +, and any byte may be written % and two hex digits. */
  ghost predicate Encodes(e: string, s: string) {
    if e == [] then s == []
    else if s == [] then false
    else if e[0] == '%' then
      |e| > 2 && Denotes(e[1], s[0] as int / 16) && Denotes(e[2], s[0] as int % 16) && Encodes(e[3..], s[1..])
    else if e[0] == '+' then s[0] == ' ' && Encodes(e[1..], s[1..])
    else s[0] == e[0] && Encodes(e[1..], s[1..])
  }

  /** Every % is followed by two hex digits. */
  predicate WellFormed(e: string) {
    if e == [] then true
    else if e[0] == '%' then |e| > 2 && IsHex(e[1]) && IsHex(e[2]) && WellFormed(e[3..])
    else WellFormed(e[1..])
  }

  /** url_decode inverts every percent-encoding of every byte string, and on
      well-formed input yields the only string encoded. */
  lemma {:induction false} DecodeInverts(e: string, s: string)
    ensures Encodes(e, s) <==> WellFormed(e) && Decode(e) == s
    decreases |e|
  {
    if e != [] {
      DecodeStep(e);
      hide DecodedByte;
      if e[0] == '%' {
        if |e| > 2 && IsHex(e[1]) && IsHex(e[2]) {
          DecodeEscape(e);
          hide Decode, IsHex, Denotes;
          if s != [] {
            EscapeIff(e, s[0]);
            DecodeInverts(e[3..], s[1..]);
          }
        } else if s != [] && |e| > 2 {
          DigitIff(e[1], s[0] as int / 16);
          DigitIff(e[2], s[0] as int % 16);
        }
      } else {
        hide Decode, IsHex, Denotes;
        if s != [] {
          DecodeInverts(e[1..], s[1..]);
        }
      }
    }
  }

  lemma DecodeEscape(e: string)
    requires |e| > 2 && e[0] == '%' && IsHex(e[1]) && IsHex(e[2])
    ensures Decode(e) == [(16 * HexValue(e[1]) + HexValue(e[2])) as char] + Decode(e[3..])
  {
    hide HexDigits, HexValue, Strtol;
    DecodeStep(e);
    hide Decode, DecodedByte;
    assert e[1..3] == [e[1], e[2]];
    DigitIff(e[1], HexValue(e[1]));
    DigitIff(e[2], HexValue(e[2]));
    HexPair(e[1], e[2], HexValue(e[1]), HexValue(e[2]));
  }

  lemma EscapeIff(e: string, c: char)
    requires |e| > 2 && IsHex(e[1]) && IsHex(e[2])
    ensures Denotes(e[1], c as int / 16) && Denotes(e[2], c as int % 16)
            <==> c == (16 * HexValue(e[1]) + HexValue(e[2])) as char
  {
    DigitIff(e[1], c as int / 16);
    DigitIff(e[2], c as int % 16);
    hide Denotes, IsHex, HexValue;
  }

  /** Every % has at least two characters behind it. */
  predicate Closed(p: string) {
    if p == [] then true
    else if p[0] == '%' then |p| > 2 && Closed(p[3..])
    else Closed(p[1..])
  }

  /** What the first piece of a string decodes to, and how long it is. */
  function Head(s: string): string
    requires s != ""
  {
    if s[0] == '%' then if |s| > 2 then [DecodedByte(s[1..3])] else ""
    else if s[0] == '+' then " "
    else [s[0]]
  }

  function HeadSize(s: string): (n: nat)
    requires s != ""
    ensures 1 <= n <= |s|
  {
    if s[0] == '%' && |s| > 2 then 3 else 1
  }

  lemma DecodeHead(s: string)
    requires s != ""
    ensures Decode(s) == Head(s) + Decode(s[HeadSize(s)..])
  {
    DecodeStep(s);
    hide Decode, DecodedByte;
  }

  /** What follows does not change the first piece. */
  lemma HeadKept(p: string, r: string)
    requires Closed(p) && p != ""
    ensures Head(p + r) == Head(p) && HeadSize(p + r) == HeadSize(p) && Closed(p[HeadSize(p)..])
    ensures (p + r)[HeadSize(p)..] == p[HeadSize(p)..] + r
  {
    hide DecodedByte;
    assert p[0] == '%' ==> (p + r)[1..3] == p[1..3];
  }

  lemma {:induction false} DecodeConcat(p: string, r: string)
    requires Closed(p)
    ensures Decode(p + r) == Decode(p) + Decode(r)
    decreases |p|
  {
    if p == "" {
      assert p + r == r;
    } else {
      DecodeHead(p);
      DecodeHead(p + r);
      HeadKept(p, r);
      hide Decode, Closed, Head, HeadSize;
      DecodeConcat(p[HeadSize(p)..], r);
      Regroup(Head(p), Decode(p[HeadSize(p)..]), Decode(r));
    }
  }

  /** Decoding piece by piece, wherever a piece stands: a character for itself,
      + for a space, % and any two characters for a byte, and a % with fewer
      than two characters behind it for nothing. */
  lemma {:induction false} DecodePieces(p: string, c: char, a: char, b: char, r: string)
    requires Closed(p)
    ensures c != '%' && c != '+' ==> Decode(p + ([c] + r)) == Decode(p) + ([c] + Decode(r))
    ensures Decode(p + ("+" + r)) == Decode(p) + (" " + Decode(r))
    ensures Decode(p + (['%', a, b] + r)) == Decode(p) + ([DecodedByte([a, b])] + Decode(r))
    ensures |r| < 2 ==> Decode(p + ("%" + r)) == Decode(p) + Decode(r)
    ensures Decode("") == ""
  {
    DecodeConcat(p, [c] + r);
    DecodeConcat(p, "+" + r);
    DecodeConcat(p, ['%', a, b] + r);
    DecodeConcat(p, "%" + r);
    assert ([c] + r)[1..] == r && ("+" + r)[1..] == r && ("%" + r)[1..] == r;
    assert (['%', a, b] + r)[1..3] == [a, b] && (['%', a, b] + r)[3..] == r;
    hide DecodedByte;
  }

  /** A digit for v, in the case wanted. */
  function HexDigit(v: int, upper: bool): (c: char)
    requires 0 <= v < 16
    ensures Denotes(c, v)
  {
    if upper then UPPER[v] else LOWER[v]
  }

  /** The unreserved characters of section 2.3 of RFC 3986. */
  predicate Unreserved(c: char) {
    'a' <= c <= 'z' || 'A' <= c <= 'Z' || '0' <= c <= '9' || c == '-' || c == '.' || c == '_' || c == '~'
  }

  ghost predicate Bytes(s: string) {
    forall i :: 0 <= i < |s| ==> s[i] < 256 as char
  }

  /** The encoding of section 2.1 of RFC 3986, by an encoder that chooses the
      case of every digit. */
  function Encode(s: string, upper: int -> bool): string
    requires forall i :: 0 <= i < |s| ==> s[i] < 256 as char
  {
    if s == [] then []
    else if Unreserved(s[0]) then [s[0]] + Encode(s[1..], upper)
    else
      var hi, lo := HexDigit(s[0] as int / 16, upper(2 * |s|)), HexDigit(s[0] as int % 16, upper(2 * |s| + 1));
      ['%', hi, lo] + Encode(s[1..], upper)
  }

  lemma {:induction false} EncodeEncodes(s: string, upper: int -> bool)
    requires Bytes(s)
    ensures Encodes(Encode(s, upper), s) && Without(Encode(s, upper), '?')
  {
    if s != [] {
      EncodeEncodes(s[1..], upper);
      var rest := Encode(s[1..], upper);
      if Unreserved(s[0]) {
        assert Encode(s, upper)[1..] == rest;
      } else {
        var hi, lo := HexDigit(s[0] as int / 16, upper(2 * |s|)), HexDigit(s[0] as int % 16, upper(2 * |s| + 1));
        DigitIff(hi, s[0] as int / 16);
        DigitIff(lo, s[0] as int % 16);
        hide Denotes, HexDigit, HexValue;
        assert Encode(s, upper) == ['%', hi, lo] + rest;
        assert (['%', hi, lo] + rest)[3..] == rest;
      }
    }
  }

  /** Decoding undoes encoding, for every byte string and every encoder. */
  lemma {:induction false} RoundTrip(s: string, upper: int -> bool)
    requires Bytes(s)
    ensures Decode(Encode(s, upper)) == s
  {
    EncodeEncodes(s, upper);
    DecodeInverts(Encode(s, upper), s);
  }

  // ---------------------------------------------------------------------
  // Normalisation
  // ---------------------------------------------------------------------

  /** Position of the first c at or after i, or the length. */
  function Find(s: string, c: char, i: nat): (j: nat)
    requires i <= |s|
    ensures i <= j <= |s| && (j < |s| ==> s[j] == c)
    ensures forall k :: i <= k < j ==> s[k] != c
    decreases |s| - i
  {
    if i == |s| || s[i] == c then i else Find(s, c, i + 1)
  }

  /** The part of a url before the query. */
  function BeforeQuery(url: string): string {
    url[..Find(url, '?', 0)]
  }

  /** The pieces between slashes; at least one, possibly empty. */
  function Split(s: string): (segs: seq<string>)
    ensures segs != []
    decreases |s|
  {
    var j := Find(s, '/', 0);
    if j == |s| then [s] else [s[..j]] + Split(s[j + 1..])
  }

  predicate Normal(seg: string) {
    seg != "" && seg != "." && seg != ".."
  }

  /** The stack of names after the given segments; None if they ever climb
      above the root. */
  function Fold(segs: seq<string>, stack: seq<string>): Option<seq<string>>
    decreases |segs|
  {
    if segs == [] then Some(stack)
    else if segs[0] == ".." then
      if stack == [] then None else Fold(segs[1..], stack[..|stack| - 1])
    else if Normal(segs[0]) then Fold(segs[1..], stack + [segs[0]])
    else Fold(segs[1..], stack)
  }

  function Join(parts: seq<string>): string {
    if parts == [] then "" else "/" + parts[0] + Join(parts[1..])
  }

  /** What becomes of a decoded path. */
  function Resolve(docRoot: string, path: string): string {
    if path == "" || path[0] != '/' then ""
    else
      match Fold(Split(path[1..]), [])
      case None => ""
      case Some(parts) => docRoot + Join(if parts == [] then ["index.html"] else parts)
  }

  /** What make_safe_path computes. */
  function SafePathOf(docRoot: string, url: string): string {
    Resolve(docRoot, Decode(BeforeQuery(url)))
  }

  lemma DecodeFrom(s: string, i: nat)
    requires i < |s|
    ensures Decode(s[i..]) ==
            if s[i] == '%' then
              if i + 2 < |s| then [DecodedByte(s[i + 1..i + 3])] + Decode(s[i + 3..]) else Decode(s[i + 1..])
            else if s[i] == '+' then " " + Decode(s[i + 1..])
            else [s[i]] + Decode(s[i + 1..])
  {
    DecodeStep(s[i..]);
    hide Decode, DecodedByte;
    assert s[i..][1..] == s[i + 1..];
    if i + 2 < |s| {
      assert s[i..][1..3] == s[i + 1..i + 3] && s[i..][3..] == s[i + 3..];
    }
  }

  /** What decoding does at position i, behind what is decoded already. */
  lemma DecodeAt(s: string, i: nat, out: string)
    requires i < |s|
    ensures out + Decode(s[i..]) ==
            if s[i] == '%' then
              if i + 2 < |s| then out + [DecodedByte(s[i + 1..i + 3])] + Decode(s[i + 3..])
              else out + Decode(s[i + 1..])
            else if s[i] == '+' then out + " " + Decode(s[i + 1..])
            else out + [s[i]] + Decode(s[i + 1..])
  {
    DecodeFrom(s, i);
    hide Decode, DecodedByte;
    if s[i] == '%' && i + 2 < |s| {
      Regroup(out, [DecodedByte(s[i + 1..i + 3])], Decode(s[i + 3..]));
    } else if s[i] == '+' {
      Regroup(out, " ", Decode(s[i + 1..]));
    } else {
      Regroup(out, [s[i]], Decode(s[i + 1..]));
    }
  }

  class WebHandler {
    const docRoot: string

    /** Strips one trailing slash. */
    constructor (root: string)
      ensures root == docRoot || root == docRoot + "/"
      ensures docRoot != "" && docRoot[|docRoot| - 1] == '/' ==> root == docRoot + "/"
    {
      docRoot := if root != "" && root[|root| - 1] == '/' then root[..|root| - 1] else root;
    }

    method UrlDecode(s: string) returns (out: string)
      ensures out == Decode(s)
    {
      out := "";
      var i := 0;
      while i < |s|
        invariant 0 <= i <= |s| && out + Decode(s[i..]) == Decode(s)
      {
        hide Decode;
        DecodeAt(s, i, out);
        var c := s[i];
        if c == '%' {
          if i + 2 < |s| {
            out := out + [DecodedByte(s[i + 1..i + 3])];
            i := i + 2;
          } else {
            // an incomplete escape is dropped
          }
        } else if c == '+' {
          out := out + " ";
        } else {
          out := out + [c];
        }
        i := i + 1;
      }
    }

    method MakeSafePath(urlPath: string) returns (full: string)
      ensures full == SafePathOf(docRoot, urlPath)
    {
      var path := urlPath;
      var qpos := Find(path, '?', 0);
      if qpos < |path| {
        path := path[..qpos];
      }
      assert path == BeforeQuery(urlPath);
      path := UrlDecode(path);
      hide Decode, BeforeQuery, Find, Split, Join, Fold;
      if path == "" || path[0] != '/' {
        return "";
      }
      var normalised := Normalise(path);
      if normalised == None {
        return "";
      }
      var parts := normalised.value;
      if parts == [] {
        parts := ["index.html"];
      }
      full := Compose(parts);
    }

    /** The segment loop of make_safe_path; None where it returns early. */
    method Normalise(path: string) returns (r: Option<seq<string>>)
      requires path != ""
      ensures r == Fold(Split(path[1..]), [])
    {
      var parts: seq<string> := [];
      var i := 1;
      while i <= |path|
        invariant 1 <= i <= |path| + 1
        invariant Remaining(path, i, parts) == Remaining(path, 1, [])
        decreases |path| + 1 - i
      {
        var j := Find(path, '/', i);
        var seg := path[i..j];
        Turn(path, i, j, parts);
        hide Remaining, Find;
        if seg != "" && seg != "." {
          if seg == ".." {
            if parts == [] {
              return None;
            }
            parts := parts[..|parts| - 1];
          } else {
            parts := parts + [seg];
          }
        }
        i := j + 1;
      }
      return Some(parts);
    }

    /** The last loop of make_safe_path: the document root and the names. */
    method Compose(parts: seq<string>) returns (full: string)
      ensures full == docRoot + Join(parts)
    {
      full := docRoot;
      var k := 0;
      assert parts[0..] == parts;
      while k < |parts|
        invariant 0 <= k <= |parts| && full + Join(parts[k..]) == docRoot + Join(parts)
      {
        JoinStep(parts, k);
        full := full + "/";
        full := full + parts[k];
        k := k + 1;
      }
    }
  }

  lemma JoinStep(parts: seq<string>, k: nat)
    requires k < |parts|
    ensures Join(parts[k..]) == "/" + parts[k] + Join(parts[k + 1..])
  {
    assert parts[k..][0] == parts[k] && parts[k..][1..] == parts[k + 1..];
  }

  lemma {:induction false} FindShift(s: string, c: char, i: nat, k: nat)
    requires i <= k <= |s|
    ensures Find(s, c, k) == i + Find(s[i..], c, k - i)
    decreases |s| - k
  {
    if k < |s| && s[k] != c {
      FindShift(s, c, i, k + 1);
    }
  }

  /** One turn of the segment loop. */
  lemma SplitAt(path: string, i: nat, j: nat)
    requires i <= |path| && j == Find(path, '/', i)
    ensures Split(path[i..]) == [path[i..j]] + if j == |path| then [] else Split(path[j + 1..])
  {
    FindShift(path, '/', i, i);
    Slices(path, i, j);
    var rest := if j < |path| then path[j + 1..] else "";
    SplitFirstIs(path[i..], j - i, path[i..j], rest);
    hide Find, Split;
  }

  lemma SplitFirstIs(s: string, k: nat, first: string, rest: string)
    requires k == Find(s, '/', 0) && first == s[..k] && (k < |s| ==> rest == s[k + 1..])
    ensures Split(s) == [first] + if k == |s| then [] else Split(rest)
  {
    SplitFirst(s);
    hide Find, Split;
  }

  lemma SplitFirst(s: string)
    ensures var k := Find(s, '/', 0);
            Split(s) == [s[..k]] + if k == |s| then [] else Split(s[k + 1..])
  {
    hide Find;
    var k := Find(s, '/', 0);
    if k == |s| {
      assert s[..k] == s;
    }
  }

  lemma Slices(path: string, i: nat, j: nat)
    requires i <= j <= |path|
    ensures path[i..][..j - i] == path[i..j]
    ensures j < |path| ==> path[i..][j - i + 1..] == path[j + 1..]
  {
  }

  /** What the segment loop will return from position i on. */
  function Remaining(path: string, i: nat, parts: seq<string>): Option<seq<string>> {
    if i <= |path| then Fold(Split(path[i..]), parts) else Some(parts)
  }

  lemma Turn(path: string, i: nat, j: nat, parts: seq<string>)
    requires i <= |path| && j == Find(path, '/', i)
    ensures var seg := path[i..j];
            Remaining(path, i, parts) ==
              if seg == ".." then
                if parts == [] then None else Remaining(path, j + 1, parts[..|parts| - 1])
              else Remaining(path, j + 1, if Normal(seg) then parts + [seg] else parts)
  {
    SplitAt(path, i, j);
    var rest := if j == |path| then [] else Split(path[j + 1..]);
    FoldFirst(path[i..j], rest, parts);
    assert [path[i..j]] + rest == Split(path[i..]);
    hide Split, Find, Normal;
  }

  /** One turn of the fold. */
  lemma FoldFirst(seg: string, rest: seq<string>, stack: seq<string>)
    ensures Fold([seg] + rest, stack) ==
              if seg == ".." then
                if stack == [] then None else Fold(rest, stack[..|stack| - 1])
              else Fold(rest, if Normal(seg) then stack + [seg] else stack)
  {
    assert ([seg] + rest)[1..] == rest;
  }

  // ---------------------------------------------------------------------
  // When a path is refused, and what an accepted one looks like
  // ---------------------------------------------------------------------

  /** Level below the root after the given segments. */
  function Depth(segs: seq<string>): int
    decreases |segs|
  {
    if segs == [] then 0
    else
      var n := |segs| - 1;
      Depth(segs[..n]) + if segs[n] == ".." then -1 else if Normal(segs[n]) then 1 else 0
  }

  /** Some prefix of the segments climbs above the root. */
  ghost predicate Climbs(segs: seq<string>) {
    exists n :: 0 <= n <= |segs| && Depth(segs[..n]) < 0
  }

  lemma {:induction false} FoldConcat(a: seq<string>, b: seq<string>, stack: seq<string>)
    ensures Fold(a + b, stack) == if Fold(a, stack).Some? then Fold(b, Fold(a, stack).value) else None
    decreases |a|
  {
    if a == [] {
      assert a + b == b;
    } else {
      var next := if a[0] == ".." && stack != [] then stack[..|stack| - 1]
                  else if Normal(a[0]) then stack + [a[0]] else stack;
      FoldConcat(a[1..], b, next);
      assert (a + b)[1..] == a[1..] + b;
    }
  }

  lemma FoldLast(segs: seq<string>, x: string, stack: seq<string>)
    ensures var s := Fold(segs, stack);
            Fold(segs + [x], stack) ==
              if s.None? then None
              else if x == ".." then
                if s.value == [] then None else Some(s.value[..|s.value| - 1])
              else Some(if Normal(x) then s.value + [x] else s.value)
  {
    FoldConcat(segs, [x], stack);
    assert [x][1..] == [];
  }

  lemma {:induction false} ClimbsLast(segs: seq<string>)
    requires segs != []
    ensures Climbs(segs) <==> Climbs(segs[..|segs| - 1]) || Depth(segs) < 0
  {
    hide Depth;
    var n := |segs| - 1;
    Prefixes(segs);
    assert segs[..|segs|] == segs;
    if Climbs(segs) {
      var m :| 0 <= m <= |segs| && Depth(segs[..m]) < 0;
      assert m <= n ==> Depth(segs[..n][..m]) < 0;
    }
    if Climbs(segs[..n]) {
      var m :| 0 <= m <= n && Depth(segs[..n][..m]) < 0;
      assert Depth(segs[..m]) < 0;
    }
  }

  lemma Prefixes(segs: seq<string>)
    requires segs != []
    ensures segs[..|segs|] == segs
    ensures forall m :: 0 <= m <= |segs| - 1 ==> segs[..|segs| - 1][..m] == segs[..m]
  {
  }

  /** The fold fails exactly on climbing paths, and otherwise its stack is as
      high as the path is deep. */
  lemma {:induction false} FoldDepth(segs: seq<string>)
    ensures Fold(segs, []).None? <==> Climbs(segs)
    ensures Fold(segs, []).Some? ==> |Fold(segs, []).value| == Depth(segs)
    decreases |segs|
  {
    if segs == [] {
      assert segs[..0] == segs;
    } else {
      var n := |segs| - 1;
      FoldDepth(segs[..n]);
      FoldLast(segs[..n], segs[n], []);
      assert segs == segs[..n] + [segs[n]];
      ClimbsLast(segs);
      hide Climbs;
    }
  }

  /** The query is cut off: what stands before the first question mark decides
      alone, and all of it does. */
  lemma {:induction false} QueryCut(docRoot: string, p: string, q: string)
    requires Without(p, '?')
    ensures SafePathOf(docRoot, p) == Resolve(docRoot, Decode(p))
    ensures SafePathOf(docRoot, p + "?" + q) == Resolve(docRoot, Decode(p))
  {
    FindFirst(p, '?', 0, |p|);
    FindFirst(p + "?" + q, '?', 0, |p|);
    assert p[..|p|] == p && (p + "?" + q)[..|p|] == p;
  }

  /** make_safe_path is empty, with or without a query, exactly when the decoded
      path lacks its leading slash or climbs above the root. */
  lemma {:induction false} RefusedIff(docRoot: string, p: string, q: string)
    requires Without(p, '?')
    ensures var refused := Decode(p) == "" || Decode(p)[0] != '/' || Climbs(Split(Decode(p)[1..]));
            && (SafePathOf(docRoot, p) == "" <==> refused)
            && (SafePathOf(docRoot, p + "?" + q) == "" <==> refused)
  {
    QueryCut(docRoot, p, q);
    if Decode(p) != "" && Decode(p)[0] == '/' {
      FoldDepth(Split(Decode(p)[1..]));
    }
  }

  /** A path that ends where it began is answered with the default page. */
  lemma DefaultPage(docRoot: string, p: string)
    requires Without(p, '?') && Decode(p) != "" && Decode(p)[0] == '/'
    requires !Climbs(Split(Decode(p)[1..])) && Depth(Split(Decode(p)[1..])) == 0
    ensures SafePathOf(docRoot, p) == docRoot + "/index.html"
  {
    hide Decode, Split, Depth, Climbs, Fold, SafePathOf;
    QueryCut(docRoot, p, "");
    FoldDepth(Split(Decode(p)[1..]));
    JoinCons("index.html", []);
    assert ["index.html"] + [] == ["index.html"] && "/" + "index.html" + "" == "/index.html";
  }

  /** A name that cannot leave its directory. */
  ghost predicate Clean(part: string) {
    part != "" && part != "." && part != ".." && forall i :: 0 <= i < |part| ==> part[i] != '/'
  }

  ghost predicate AllClean(parts: seq<string>) {
    forall i :: 0 <= i < |parts| ==> Clean(parts[i])
  }

  ghost predicate Slashless(segs: seq<string>) {
    forall i, k :: 0 <= i < |segs| && 0 <= k < |segs[i]| ==> segs[i][k] != '/'
  }

  lemma {:induction false} SplitSlashless(s: string)
    ensures Slashless(Split(s))
    decreases |s|
  {
    var j := Find(s, '/', 0);
    if j < |s| {
      SplitSlashless(s[j + 1..]);
    }
  }

  lemma {:induction false} FoldClean(segs: seq<string>, stack: seq<string>)
    requires Slashless(segs) && AllClean(stack)
    ensures Fold(segs, stack).Some? ==> AllClean(Fold(segs, stack).value)
    decreases |segs|
  {
    if segs != [] {
      var rest := segs[1..];
      assert Slashless(rest);
      if segs[0] == ".." {
        if stack != [] {
          FoldClean(rest, stack[..|stack| - 1]);
        }
      } else if Normal(segs[0]) {
        assert Clean(segs[0]);
        FoldClean(rest, stack + [segs[0]]);
      } else {
        FoldClean(rest, stack);
      }
    }
  }

  /** Whatever is accepted lies below the document root: the result is the
      root followed by at least one name, none of which is empty, `.` or `..`
      or contains a slash. */
  lemma StaysBelowRoot(docRoot: string, url: string) returns (parts: seq<string>)
    requires SafePathOf(docRoot, url) != ""
    ensures SafePathOf(docRoot, url) == docRoot + Join(parts)
    ensures parts != [] && AllClean(parts)
  {
    var path := Decode(BeforeQuery(url));
    SplitSlashless(path[1..]);
    FoldClean(Split(path[1..]), []);
    parts := Fold(Split(path[1..]), []).value;
    if parts == [] {
      parts := ["index.html"];
    }
  }

  // ---------------------------------------------------------------------
  // The laws of normalisation
  // ---------------------------------------------------------------------

  /** Empty and `.` segments can be left out anywhere. */
  lemma DotIsNothing(a: seq<string>, x: string, b: seq<string>)
    requires x == "" || x == "."
    ensures Fold(a + [x] + b, []) == Fold(a + b, [])
  {
    FoldLast(a, x, []);
    FoldConcat(a + [x], b, []);
    FoldConcat(a, b, []);
  }

  /** A name followed by `..` can be left out anywhere. */
  lemma DotDotCancels(a: seq<string>, x: string, b: seq<string>)
    requires x != "" && x != "." && x != ".."
    ensures Fold(a + [x] + [".."] + b, []) == Fold(a + b, [])
  {
    FoldLast(a, x, []);
    FoldLast(a + [x], "..", []);
    FoldConcat(a + [x] + [".."], b, []);
    FoldConcat(a, b, []);
    if Fold(a, []).Some? {
      var s := Fold(a, []).value;
      assert (s + [x])[..|s|] == s;
    }
  }

  /** Names alone, that is anything but the empty string, `.` and `..`, are
      their own normal form. */
  lemma {:induction false} NamesStay(parts: seq<string>, stack: seq<string>)
    requires forall i :: 0 <= i < |parts| ==> parts[i] != "" && parts[i] != "." && parts[i] != ".."
    ensures Fold(parts, stack) == Some(stack + parts)
    decreases |parts|
  {
    if parts == [] {
      assert stack + parts == stack;
    } else {
      NamesStay(parts[1..], stack + [parts[0]]);
      assert stack + [parts[0]] + parts[1..] == stack + parts;
    }
  }

  // ---------------------------------------------------------------------
  // Idempotence
  // ---------------------------------------------------------------------

  lemma {:induction false} FindFirst(s: string, c: char, i: nat, j: nat)
    requires i <= j <= |s| && (j < |s| ==> s[j] == c)
    requires forall k :: i <= k < j ==> s[k] != c
    ensures Find(s, c, i) == j
    decreases j - i
  {
    if i < j {
      FindFirst(s, c, i + 1, j);
    }
  }

  lemma JoinTail(parts: seq<string>)
    requires parts != []
    ensures Join(parts)[1..] == parts[0] + Join(parts[1..])
    ensures parts[1..] != [] ==> Join(parts[1..]) != "" && Join(parts[1..])[0] == '/'
  {
  }

  lemma Halves(p: string, q: string)
    ensures (p + q)[..|p|] == p
    ensures q != "" ==> (p + q)[|p| + 1..] == q[1..]
  {
  }

  /** Joining any segments without slashes and splitting again gives them back. */
  lemma {:induction false} SplitJoin(parts: seq<string>)
    requires parts != [] && Slashless(parts)
    ensures Split(Join(parts)[1..]) == parts
    decreases |parts|
  {
    var p, rest := parts[0], parts[1..];
    var s := Join(parts)[1..];
    assert Slashless(rest);
    JoinTail(parts);
    FindFirst(s, '/', 0, |p|);
    SplitFirst(s);
    Halves(p, Join(rest));
    if rest != [] {
      SplitJoin(rest);
    }
    hide Split, Find, Slashless;
    assert parts == [p] + rest;
  }

  lemma AroundSlash(s: string, j: nat)
    requires j < |s| && s[j] == '/'
    ensures "/" + s[..j] + ("/" + s[j + 1..]) == "/" + s
  {
    var t := "/" + s[..j] + ("/" + s[j + 1..]);
    assert |t| == |s| + 1;
    forall k | 0 <= k < |t| ensures t[k] == ("/" + s)[k] {
    }
  }

  /** Splitting and joining again gives the string back. */
  lemma {:induction false} JoinSplit(s: string)
    ensures Join(Split(s)) == "/" + s
    decreases |s|
  {
    SplitFirst(s);
    var j := Find(s, '/', 0);
    if j == |s| {
      assert s[..j] == s;
      assert Join([s]) == "/" + s;
    } else {
      JoinSplit(s[j + 1..]);
      JoinCons(s[..j], Split(s[j + 1..]));
      hide Split, Find, Join;
      AroundSlash(s, j);
    }
  }

  lemma {:induction false} JoinConcat(a: seq<string>, b: seq<string>)
    ensures Join(a + b) == Join(a) + Join(b)
  {
    if a == [] {
      assert a + b == b;
    } else {
      JoinConcat(a[1..], b);
      JoinCons(a[0], a[1..] + b);
      JoinCons(a[0], a[1..]);
      hide Join;
      assert a == [a[0]] + a[1..] && a + b == [a[0]] + (a[1..] + b);
      Regroup("/" + a[0], Join(a[1..]), Join(b));
    }
  }

  lemma Regroup(p: string, q: string, r: string)
    ensures (p + q) + r == p + (q + r)
  {
  }

  lemma JoinCons(p: string, rest: seq<string>)
    ensures Join([p] + rest) == "/" + p + Join(rest)
  {
    assert ([p] + rest)[1..] == rest;
  }

  /** Normalising never makes a path longer. */
  lemma {:induction false} FoldShrinks(segs: seq<string>, stack: seq<string>)
    ensures Fold(segs, stack).Some? ==> |Join(Fold(segs, stack).value)| <= |Join(stack)| + |Join(segs)|
    decreases |segs|
  {
    if segs != [] {
      var rest := segs[1..];
      if segs[0] == ".." {
        if stack != [] {
          var init := stack[..|stack| - 1];
          JoinConcat(init, [stack[|stack| - 1]]);
          assert stack == init + [stack[|stack| - 1]];
          FoldShrinks(rest, init);
        }
      } else if Normal(segs[0]) {
        JoinConcat(stack, [segs[0]]);
        assert Join([segs[0]]) == "/" + segs[0];
        FoldShrinks(rest, stack + [segs[0]]);
      } else {
        FoldShrinks(rest, stack);
      }
    }
  }

  ghost predicate Without(s: string, c: char) {
    forall i :: 0 <= i < |s| ==> s[i] != c
  }

  /** Decoding never makes a string longer, and makes it shorter if there is
      anything to decode. */
  lemma {:induction false} DecodeShrinks(s: string)
    ensures |Decode(s)| <= |s|
    ensures !Without(s, '%') ==> |Decode(s)| < |s|
    ensures Without(s, '%') && Without(s, '+') ==> Decode(s) == s
    ensures Without(s, '%') ==> Without(Decode(s), '+')
    decreases |s|
  {
    if s != "" {
      DecodeStep(s);
      hide Decode, DecodedByte;
      if s[0] == '%' && |s| > 2 {
        DecodeShrinks(s[3..]);
      } else {
        DecodeShrinks(s[1..]);
        assert Without(s, '%') ==> Without(s[1..], '%');
        assert Without(s, '+') ==> Without(s[1..], '+');
        assert s[0] != '%' && Without(s[1..], '%') ==> Without(s, '%');
      }
    }
  }

  ghost predicate AllWithout(segs: seq<string>, c: char) {
    forall i :: 0 <= i < |segs| ==> Without(segs[i], c)
  }

  lemma {:induction false} SplitWithout(s: string, c: char)
    requires Without(s, c)
    ensures AllWithout(Split(s), c)
    decreases |s|
  {
    var j := Find(s, '/', 0);
    if j < |s| {
      SplitWithout(s[j + 1..], c);
    }
  }

  lemma {:induction false} FoldWithout(segs: seq<string>, stack: seq<string>, c: char)
    requires AllWithout(segs, c) && AllWithout(stack, c)
    ensures Fold(segs, stack).Some? ==> AllWithout(Fold(segs, stack).value, c)
    decreases |segs|
  {
    if segs != [] {
      var rest := segs[1..];
      assert AllWithout(rest, c);
      if segs[0] == ".." {
        if stack != [] {
          FoldWithout(rest, stack[..|stack| - 1], c);
        }
      } else if Normal(segs[0]) {
        FoldWithout(rest, stack + [segs[0]], c);
      } else {
        FoldWithout(rest, stack, c);
      }
    }
  }

  lemma {:induction false} JoinWithout(parts: seq<string>, c: char)
    requires AllWithout(parts, c) && c != '/'
    ensures Without(Join(parts), c)
  {
    if parts != [] {
      assert AllWithout(parts[1..], c);
      JoinWithout(parts[1..], c);
    }
  }

  /** None of the characters that decoding or query removal act on. */
  ghost predicate Plain(s: string) {
    Without(s, '%') && Without(s, '+') && Without(s, '?')
  }

  /** Clean names are served from under the root as they are. */
  lemma {:induction false} NamesResolve(docRoot: string, parts: seq<string>)
    requires parts != [] && AllClean(parts)
    ensures Resolve(docRoot, Join(parts)) == docRoot + Join(parts)
  {
    SplitJoin(parts);
    NamesStay(parts, []);
    assert [] + parts == parts;
  }

  /** A plain path of clean names, with or without a query, is served from
      under the root as it is. */
  lemma {:induction false} PlainIsServed(docRoot: string, parts: seq<string>, q: string)
    requires parts != [] && AllClean(parts) && Plain(Join(parts))
    ensures SafePathOf(docRoot, Join(parts)) == docRoot + Join(parts)
    ensures SafePathOf(docRoot, Join(parts) + "?" + q) == docRoot + Join(parts)
  {
    QueryCut(docRoot, Join(parts), q);
    DecodeShrinks(Join(parts));
    NamesResolve(docRoot, parts);
  }

  /** Any byte names at all are reached by percent-encoding the path, whatever
      the encoder. */
  lemma {:induction false} EncodedIsServed(docRoot: string, parts: seq<string>, upper: int -> bool, q: string)
    requires parts != [] && AllClean(parts) && Bytes(Join(parts))
    ensures SafePathOf(docRoot, Encode(Join(parts), upper) + "?" + q) == docRoot + Join(parts)
  {
    EncodeEncodes(Join(parts), upper);
    RoundTrip(Join(parts), upper);
    QueryCut(docRoot, Encode(Join(parts), upper), q);
    NamesResolve(docRoot, parts);
  }

  /** What any accepted path comes out as: the default page, or something no
      longer than the decoded path, without + unless that has one. */
  lemma AcceptedIsSmall(url: string)
    requires SafePathOf("", url) != ""
    ensures var path := Decode(BeforeQuery(url));
            var out := SafePathOf("", url);
            out == "/index.html" || (|out| <= |path| && (Without(path, '+') ==> Without(out, '+')))
  {
    var path := Decode(BeforeQuery(url));
    var segs := Split(path[1..]);
    var parts := Fold(segs, []).value;
    if parts == [] {
      assert Join(["index.html"]) == "/index.html";
    } else {
      JoinSplit(path[1..]);
      FoldShrinks(segs, []);
      if Without(path, '+') {
        SplitWithout(path[1..], '+');
        FoldWithout(segs, [], '+');
        JoinWithout(parts, '+');
      }
    }
  }

  lemma IndexIsPlain()
    ensures Plain("/index.html")
  {
  }

  /** Normalising an accepted path again changes nothing exactly when the path
      has no %, + or ? in it. */
  lemma IdempotentIff(url: string)
    requires SafePathOf("", url) != ""
    ensures var rel := SafePathOf("", url);
            SafePathOf("", rel) == rel <==> Plain(rel)
  {
    var rel := SafePathOf("", url);
    if Plain(rel) {
      var parts := StaysBelowRoot("", url);
      assert "" + Join(parts) == Join(parts);
      PlainIsServed("", parts, "");
    } else if SafePathOf("", rel) == rel {
      AcceptedIsSmall(rel);
      var cut := BeforeQuery(rel);
      DecodeShrinks(cut);
      IndexIsPlain();
      assert |cut| == |rel|;
      assert cut == rel;
      assert Without(rel, '?');
    }
  }

  /** A path whose decoded form is one clean name. */
  lemma {:induction false} OneName(url: string, name: string)
    requires Without(url, '?') && Clean(name) && Decode(url) == "/" + name
    ensures SafePathOf("", url) == "/" + name
  {
    QueryCut("", url, "");
    assert Join([name]) == "/" + name;
    NamesResolve("", [name]);
  }

  /** Paths that are not plain, for which normalising again goes on: a name
      whose % was itself escaped is decoded once more.  /%2525 becomes /%25 and
      then /%. */
  lemma TwiceEscaped(a: char, b: char, h: int, l: int)
    requires Denotes(a, h) && Denotes(b, l)
    ensures var once := ['/', '%', a, b];
            var byte := (16 * h + l) as char;
            && SafePathOf("", ['/', '%', '2', '5', a, b]) == once && !Plain(once)
            && (byte != '/' && byte != '.' ==> SafePathOf("", once) == ['/', byte] != once)
  {
    var once := ['/', '%', a, b];
    var byte := (16 * h + l) as char;
    DigitIff(a, h);
    DigitIff(b, l);
    hide Denotes, HexValue;
    UnescapeOne('2', '5', 2, 5, [a, b]);
    UnescapeOne(a, b, h, l, []);
    DecodeHex(a, b);
    hide Decode, SafePathOf;
    assert once[1] == '%';
    assert ['/', '%', a, b] + [] == once && once == "/" + ['%', a, b];
    OneName(['/', '%', '2', '5'] + [a, b], ['%', a, b]);
    assert ['/', '%', '2', '5'] + [a, b] == ['/', '%', '2', '5', a, b];
    if byte != '/' && byte != '.' {
      assert once == ['/', '%', a, b] + [];
      OneName(once, [byte]);
    }
  }

  lemma UnescapeOne(a: char, b: char, h: int, l: int, rest: string)
    requires Denotes(a, h) && Denotes(b, l)
    ensures Decode(['/', '%', a, b] + rest) == "/" + ([(16 * h + l) as char] + Decode(rest))
  {
    HexPair(a, b, h, l);
    hide Denotes, DecodedByte;
    DecodePieces("/", 'x', a, b, rest);
    assert Decode("/") == "/";
    assert "/" + (['%', a, b] + rest) == ['/', '%', a, b] + rest;
  }

  lemma DecodeHex(a: char, b: char)
    requires IsHex(a) && IsHex(b)
    ensures Decode([a, b]) == [a, b]
  {
    assert [a, b][1..] == [b] && [b][1..] == [];
    assert Decode([b]) == [b];
  }

}
