/**
 * Segment decoding: base64url text (section 5 of RFC 4648) turned into the
 * standard alphabet, padded with '=' and fed to a model of Python's
 * `base64.b64decode` without `validate`, which is lenient:
 *   - a string with a non-ASCII character is refused outright;
 *   - characters outside the alphabet are skipped;
 *   - '=' is skipped as well unless two or three data characters of a
 *     group are in; then it counts, and once enough have counted to close
 *     the group the decoding ends, whatever follows;
 *   - the input fails when it ends inside a group.
 * A trailing group of 2 or 3 characters yields 1 or 2 bytes; the unused low
 * bits of its last character are dropped without being checked.
 */
module Base64 {
  import opened Wrappers

  type Byte = x: int | 0 <= x < 256
  type Sextet = x: int | 0 <= x < 64

  predicate IsAlphabetChar(c: char)
  {
    ('A' <= c <= 'Z') || ('a' <= c <= 'z') || ('0' <= c <= '9') || c == '+' || c == '/'
  }

  predicate IsAlphabetString(s: string)
  {
    forall i :: 0 <= i < |s| ==> IsAlphabetChar(s[i])
  }

  /** The 6-bit value of a standard-alphabet character. */
  function ValueOf(c: char): (v: Sextet)
    requires IsAlphabetChar(c)
  {
    if 'A' <= c <= 'Z' then c as int - 'A' as int
    else if 'a' <= c <= 'z' then c as int - 'a' as int + 26
    else if '0' <= c <= '9' then c as int - '0' as int + 52
    else if c == '+' then 62
    else 63
  }

  /** The standard-alphabet character of a 6-bit value (the encoder's table). */
  function CharOf(v: Sextet): (c: char)
    ensures IsAlphabetChar(c) && ValueOf(c) == v
  {
    if v < 26 then ('A' as int + v) as char
    else if v < 52 then ('a' as int + (v - 26)) as char
    else if v < 62 then ('0' as int + (v - 52)) as char
    else if v == 62 then '+'
    else '/'
  }

  /** `s.replace('-', '+').replace('_', '/')`. */
  function UrlToStd(s: string): (r: string)
    ensures |r| == |s|
    ensures forall i :: 0 <= i < |s| ==> (s[i] == '-' ==> r[i] == '+')
    ensures forall i :: 0 <= i < |s| ==> (s[i] == '_' ==> r[i] == '/')
    ensures forall i :: 0 <= i < |s| ==> (s[i] != '-' && s[i] != '_' ==> r[i] == s[i])
  {
    seq(|s|, i requires 0 <= i < |s| => if s[i] == '-' then '+' else if s[i] == '_' then '/' else s[i])
  }

  /** `'=' * k`. */
  function Pads(k: nat): (r: string)
    ensures |r| == k && forall i :: 0 <= i < k ==> r[i] == '='
  {
    seq(k, i => '=')
  }

  /** Node-id padding: '=' only when the length is not a multiple of 4. */
  function NodePad(s: string): (r: string)
    ensures |r| % 4 == 0 && |s| <= |r| < |s| + 4 && r[..|s|] == s
    ensures forall i :: |s| <= i < |r| ==> r[i] == '='
    ensures |s| % 4 == 0 ==> r == s
  {
    if |s| % 4 != 0 then s + Pads(4 - |s| % 4) else s
  }

  /** Header padding: always `4 - len % 4` characters, four when already aligned. */
  function HeaderPad(s: string): (r: string)
    ensures |r| % 4 == 0 && |s| < |r| <= |s| + 4 && r[..|s|] == s
    ensures forall i :: |s| <= i < |r| ==> r[i] == '='
    ensures |s| % 4 == 0 ==> |r| == |s| + 4
  {
    s + Pads(4 - |s| % 4)
  }

  /** Number of bytes that `d` data characters decode to. */
  function DecodedLength(d: nat): nat
  {
    d / 4 * 3 + (if d % 4 == 0 then 0 else d % 4 - 1)
  }

  /** The bytes of a run of data characters, group of four by group of four. */
  function DecodeData(d: string): (r: seq<Byte>)
    requires IsAlphabetString(d) && |d| % 4 != 1
    ensures |r| == DecodedLength(|d|)
    decreases |d|
  {
    if |d| == 0 then []
    else if |d| < 4 then DecodeGroup(d)
    else DecodeGroup(d[..4]) + DecodeData(d[4..])
  }

  /** The bytes of one group of 2, 3 or 4 data characters (24 bits, big-endian). */
  function DecodeGroup(g: string): (r: seq<Byte>)
    requires IsAlphabetString(g) && 2 <= |g| <= 4
    ensures |r| == |g| - 1
  {
    var v0, v1 := ValueOf(g[0]), ValueOf(g[1]);
    var v2 := if |g| > 2 then ValueOf(g[2]) else 0;
    var v3 := if |g| > 3 then ValueOf(g[3]) else 0;
    var bytes := [v0 * 4 + v1 / 16, (v1 % 16) * 16 + v2 / 4, (v2 % 4) * 64 + v3];
    bytes[..|g| - 1]
  }

  predicate IsAscii(s: string)
  {
    forall i :: 0 <= i < |s| ==> s[i] as int < 128
  }

  /** The decoder's state: position in the group, '=' seen, pending bits, output. */
  datatype Quad = Quad(pos: nat, pads: nat, left: int, out: seq<Byte>)

  /** The pending bits fit what the position leaves of the last byte. */
  predicate Valid(q: Quad)
  {
    && q.pos < 4
    && 0 <= q.left
    && (q.pos == 0 ==> q.left == 0)
    && (q.pos == 1 ==> q.left < 64)
    && (q.pos == 2 ==> q.left < 16)
    && (q.pos == 3 ==> q.left < 4)
  }

  /** One data character enters the group; a byte is complete from the second on. */
  function Absorb(q: Quad, v: Sextet): (r: Quad)
    requires Valid(q)
    ensures Valid(r) && r.pos == (q.pos + 1) % 4 && r.pads == 0
    ensures |r.out| == |q.out| + (if q.pos == 0 then 0 else 1) && r.out[..|q.out|] == q.out
  {
    match q.pos
    case 0 => Quad(1, 0, v, q.out)
    case 1 => Quad(2, 0, v % 16, q.out + [q.left * 4 + v / 16])
    case 2 => Quad(3, 0, v % 4, q.out + [q.left * 16 + v / 4])
    case 3 => Quad(0, 0, 0, q.out + [q.left * 64 + v])
  }

  /** The decoding loop over the remaining characters. */
  function Scan(s: string, q: Quad): (r: Option<seq<Byte>>)
    requires Valid(q)
    ensures r.Some? ==> q.out <= r.value
    decreases |s|
  {
    if |s| == 0 then
      if q.pos == 0 then Some(q.out) else None
    else if s[0] == '=' then
      if q.pos >= 2 && q.pos + q.pads + 1 >= 4 then Some(q.out)
      else Scan(s[1..], if q.pos >= 2 then q.(pads := q.pads + 1) else q)
    else if !IsAlphabetChar(s[0]) then Scan(s[1..], q)
    else
      var r := Scan(s[1..], Absorb(q, ValueOf(s[0])));
      assert r.Some? ==> Absorb(q, ValueOf(s[0])).out <= r.value;
      r
  }

  /** The start state. */
  const Start: Quad := Quad(0, 0, 0, [])

  /** Python's `base64.b64decode(s)`; None is a ValueError or binascii.Error. */
  function B64Decode(s: string): (r: Option<seq<Byte>>)
    ensures !IsAscii(s) ==> r.None?
  {
    if !IsAscii(s) then None else Scan(s, Start)
  }

  /**
   * The reference decoder on canonical input, `d` data characters followed by
   * `m` '=': the last group needs its padding, and a lone character fails.
   */
  function Reference(d: string, m: nat): (r: Option<seq<Byte>>)
    requires IsAlphabetString(d)
  {
    if |d| % 4 == 1 || (|d| % 4 == 2 && m < 2) || (|d| % 4 == 3 && m < 1) then None
    else Some(DecodeData(d))
  }

  /** Decoding of a node-id suffix: base64url to standard, pad if needed, decode. */
  function DecodeNodeSuffix(suffix: string): (r: Option<seq<Byte>>)
    ensures IsAlphabetString(UrlToStd(suffix)) && |suffix| % 4 == 1 ==> r.None?
    ensures IsAlphabetString(UrlToStd(suffix)) && |suffix| % 4 != 1 ==> r == Some(DecodeData(UrlToStd(suffix)))
  {
    var u := UrlToStd(suffix);
    assert IsAlphabetString(u) ==> B64Decode(NodePad(u)) == Reference(u, |NodePad(u)| - |u|) by {
      if IsAlphabetString(u) {
        assert NodePad(u) == u + Pads(|NodePad(u)| - |u|);
        LenientAgreesWithReference(u, |NodePad(u)| - |u|);
      }
    }
    B64Decode(NodePad(u))
  }

  /** Decoding of a JWS header segment: always pad, then base64url to standard, decode. */
  function DecodeHeaderSegment(seg: string): (r: Option<seq<Byte>>)
    ensures IsAlphabetString(UrlToStd(seg)) && |seg| % 4 == 1 ==> r.None?
    ensures IsAlphabetString(UrlToStd(seg)) && |seg| % 4 != 1 ==> r == Some(DecodeData(UrlToStd(seg)))
  {
    var k := 4 - |seg| % 4;
    assert IsAlphabetString(UrlToStd(seg)) ==> B64Decode(UrlToStd(HeaderPad(seg))) == Reference(UrlToStd(seg), k) by {
      if IsAlphabetString(UrlToStd(seg)) {
        assert HeaderPad(seg) == seg + Pads(k);
        UrlToStdAppendPads(seg, k);
        LenientAgreesWithReference(UrlToStd(seg), k);
      }
    }
    B64Decode(UrlToStd(HeaderPad(seg)))
  }

  // ---------------------------------------------------------------------
  // The lenient decoder agrees with the reference on canonical input

  lemma AlphabetIsAscii(d: string, m: nat)
    requires IsAlphabetString(d)
    ensures IsAscii(d + Pads(m))
  {
    forall i | 0 <= i < |d + Pads(m)| ensures (d + Pads(m))[i] as int < 128 {
      if i < |d| { assert (d + Pads(m))[i] == d[i] && IsAlphabetChar(d[i]); }
      else { assert (d + Pads(m))[i] == '='; }
    }
  }

  /** A data character is absorbed into the state. */
  lemma ScanData(c: char, rest: string, q: Quad)
    requires IsAlphabetChar(c) && Valid(q)
    ensures Scan([c] + rest, q) == Scan(rest, Absorb(q, ValueOf(c)))
  {
    assert ([c] + rest)[0] == c && ([c] + rest)[1..] == rest;
  }

  /** The bytes of a group, one character at a time. */
  lemma AbsorbGroup(v0: Sextet, v1: Sextet, v2: Sextet, v3: Sextet, out: seq<Byte>)
    ensures Absorb(Quad(0, 0, 0, out), v0) == Quad(1, 0, v0, out)
    ensures Absorb(Quad(1, 0, v0, out), v1) == Quad(2, 0, v1 % 16, out + [v0 * 4 + v1 / 16])
    ensures Absorb(Quad(2, 0, v1 % 16, out + [v0 * 4 + v1 / 16]), v2) ==
      Quad(3, 0, v2 % 4, out + [v0 * 4 + v1 / 16, (v1 % 16) * 16 + v2 / 4])
    ensures Absorb(Quad(3, 0, v2 % 4, out + [v0 * 4 + v1 / 16, (v1 % 16) * 16 + v2 / 4]), v3) ==
      Quad(0, 0, 0, out + [v0 * 4 + v1 / 16, (v1 % 16) * 16 + v2 / 4, (v2 % 4) * 64 + v3])
  {
    assert (out + [v0 * 4 + v1 / 16]) + [(v1 % 16) * 16 + v2 / 4] ==
      out + [v0 * 4 + v1 / 16, (v1 % 16) * 16 + v2 / 4];
    assert (out + [v0 * 4 + v1 / 16, (v1 % 16) * 16 + v2 / 4]) + [(v2 % 4) * 64 + v3] ==
      out + [v0 * 4 + v1 / 16, (v1 % 16) * 16 + v2 / 4, (v2 % 4) * 64 + v3];
  }

  /**
   * The state after the first one to four data characters of a group: the
   * position is the count, and every completed byte is in the output.
   */
  function AfterData(g: string, out: seq<Byte>): (q: Quad)
    requires IsAlphabetString(g) && 1 <= |g| <= 4
    ensures Valid(q) && q.pos == |g| % 4 && q.pads == 0
    ensures 2 <= |g| ==> q.out == out + DecodeGroup(g)
  {
    var v0 := ValueOf(g[0]);
    var v1 := if |g| > 1 then ValueOf(g[1]) else 0;
    var v2 := if |g| > 2 then ValueOf(g[2]) else 0;
    var v3 := if |g| > 3 then ValueOf(g[3]) else 0;
    AbsorbGroup(v0, v1, v2, v3, out);
    var q1 := Absorb(Quad(0, 0, 0, out), v0);
    if |g| == 1 then q1
    else
      var q2 := Absorb(q1, v1);
      if |g| == 2 then q2
      else
        var q3 := Absorb(q2, v2);
        if |g| == 3 then q3 else Absorb(q3, v3)
  }

  lemma SplitConcat(d: string, k: nat, p: string)
    requires k <= |d|
    ensures d + p == d[..k] + (d[k..] + p)
  {
    assert d == d[..k] + d[k..];
  }

  lemma ConsSplit(g: string, rest: string)
    requires |g| > 0
    ensures g + rest == [g[0]] + (g[1..] + rest)
  {
  }

  /** Scanning the data characters of a group, from the start of the group. */
  lemma ScanGroupData(g: string, rest: string, out: seq<Byte>)
    requires IsAlphabetString(g) && 1 <= |g| <= 4
    ensures Scan(g + rest, Quad(0, 0, 0, out)) == Scan(rest, AfterData(g, out))
  {
    var q1 := Absorb(Quad(0, 0, 0, out), ValueOf(g[0]));
    ConsSplit(g, rest);
    ScanData(g[0], g[1..] + rest, Quad(0, 0, 0, out));
    var g1 := g[1..];
    if |g| == 1 {
      assert g1 + rest == rest;
      assert AfterData(g, out) == q1;
    } else {
      var q2 := Absorb(q1, ValueOf(g1[0]));
      ConsSplit(g1, rest);
      ScanData(g1[0], g1[1..] + rest, q1);
      var g2 := g1[1..];
      if |g| == 2 {
        assert g2 + rest == rest;
        assert AfterData(g, out) == q2;
      } else {
        var q3 := Absorb(q2, ValueOf(g2[0]));
        ConsSplit(g2, rest);
        ScanData(g2[0], g2[1..] + rest, q2);
        var g3 := g2[1..];
        if |g| == 3 {
          assert g3 + rest == rest;
          assert AfterData(g, out) == q3;
        } else {
          ConsSplit(g3, rest);
          ScanData(g3[0], g3[1..] + rest, q3);
          assert g3[1..] + rest == rest;
          assert AfterData(g, out) == Absorb(q3, ValueOf(g3[0]));
        }
      }
    }
  }

  /** '=' at the start of a group, or after one data character, is skipped. */
  lemma {:induction false} ScanPadsEarly(m: nat, q: Quad)
    requires Valid(q) && q.pos < 2
    ensures Scan(Pads(m), q) == if q.pos == 0 then Some(q.out) else None
    decreases m
  {
    if m > 0 {
      assert Pads(m)[1..] == Pads(m - 1);
      ScanPadsEarly(m - 1, q);
    }
  }

  /** After two or three data characters, enough '=' close the group; the rest is not read. */
  lemma ScanPadsClose(m: nat, tail: string, q: Quad)
    requires Valid(q) && 2 <= q.pos && q.pads == 0 && q.pos + m >= 4
    ensures Scan(Pads(m) + tail, q) == Some(q.out)
  {
    var s := Pads(m) + tail;
    assert s[0] == '=';
    if q.pos == 2 {
      assert s[1..][0] == '=';
    }
  }

  /** Too few '=' at the end leave the group open. */
  lemma ScanPadsShort(m: nat, q: Quad)
    requires Valid(q) && 2 <= q.pos && q.pads == 0 && q.pos + m < 4
    ensures Scan(Pads(m), q).None?
  {
    if m > 0 {
      assert Pads(m)[1..] == [];
    }
  }

  /** The last, incomplete group and its padding. */
  lemma ScanLastGroup(d: string, m: nat, out: seq<Byte>)
    requires IsAlphabetString(d) && |d| < 4
    ensures Reference(d, m).None? ==> Scan(d + Pads(m), Quad(0, 0, 0, out)).None?
    ensures Reference(d, m).Some? ==> Scan(d + Pads(m), Quad(0, 0, 0, out)) == Some(out + Reference(d, m).value)
  {
    if |d| == 0 {
      assert d + Pads(m) == Pads(m) && out + DecodeData(d) == out;
      ScanPadsEarly(m, Quad(0, 0, 0, out));
    } else {
      var q := AfterData(d, out);
      ScanGroupData(d, Pads(m), out);
      if |d| == 1 {
        ScanPadsEarly(m, q);
      } else if |d| + m >= 4 {
        ScanPadsClose(m, [], q);
        assert Pads(m) + [] == Pads(m);
      } else {
        ScanPadsShort(m, q);
      }
    }
  }

  /** Splitting off the first group of four data characters. */
  lemma FirstGroup(d: string)
    requires IsAlphabetString(d) && |d| >= 4
    ensures IsAlphabetString(d[4..]) && |d[4..]| % 4 == |d| % 4
    ensures |d| % 4 != 1 ==> DecodeData(d) == DecodeGroup(d[..4]) + DecodeData(d[4..])
  {
  }

  lemma {:induction false} ScanCanonical(d: string, m: nat, out: seq<Byte>)
    requires IsAlphabetString(d)
    ensures Reference(d, m).None? ==> Scan(d + Pads(m), Quad(0, 0, 0, out)).None?
    ensures Reference(d, m).Some? ==> Scan(d + Pads(m), Quad(0, 0, 0, out)) == Some(out + Reference(d, m).value)
    decreases |d|
  {
    if |d| >= 4 {
      var g, rest := d[..4], d[4..];
      FirstGroup(d);
      SplitConcat(d, 4, Pads(m));
      ScanGroupData(g, rest + Pads(m), out);
      ScanCanonical(rest, m, out + DecodeGroup(g));
      if Reference(d, m).Some? {
        assert out + DecodeGroup(g) + DecodeData(rest) == out + DecodeData(d);
      }
    } else {
      ScanLastGroup(d, m, out);
    }
  }

  /**
   * On data characters followed by '=', Python's decoder and the group-wise
   * reference agree: same bytes, same failures.
   */
  lemma LenientAgreesWithReference(d: string, m: nat)
    requires IsAlphabetString(d)
    ensures B64Decode(d + Pads(m)) == Reference(d, m)
  {
    AlphabetIsAscii(d, m);
    ScanCanonical(d, m, []);
    if Reference(d, m).Some? {
      assert [] + Reference(d, m).value == Reference(d, m).value;
    }
  }

  /** A character outside the alphabet, other than '=', is skipped. */
  lemma {:induction false} ScanSkipsJunk(a: string, c: char, b: string, q: Quad)
    requires c != '=' && !IsAlphabetChar(c) && Valid(q)
    ensures Scan(a + [c] + b, q) == Scan(a + b, q)
    decreases |a|
  {
    if |a| == 0 {
      assert (a + [c] + b)[1..] == b && a + b == b;
    } else {
      assert (a + [c] + b)[0] == a[0] && (a + b)[0] == a[0];
      assert (a + [c] + b)[1..] == a[1..] + [c] + b && (a + b)[1..] == a[1..] + b;
      var q' := if a[0] == '=' then (if q.pos >= 2 then q.(pads := q.pads + 1) else q)
                else if !IsAlphabetChar(a[0]) then q else Absorb(q, ValueOf(a[0]));
      ScanSkipsJunk(a[1..], c, b, q');
    }
  }

  /** `b64decode` ignores ASCII characters outside the alphabet. */
  lemma JunkIgnored(a: string, c: char, b: string)
    requires c != '=' && !IsAlphabetChar(c) && c as int < 128
    ensures B64Decode(a + [c] + b) == B64Decode(a + b)
  {
    ScanSkipsJunk(a, c, b, Start);
    if !IsAscii(a + b) {
      var i :| 0 <= i < |a + b| && (a + b)[i] as int >= 128;
      if i < |a| { assert (a + [c] + b)[i] == (a + b)[i]; }
      else { assert (a + [c] + b)[i + 1] == (a + b)[i]; }
    }
    if !IsAscii(a + [c] + b) {
      var i :| 0 <= i < |a + [c] + b| && (a + [c] + b)[i] as int >= 128;
      if i < |a| { assert (a + [c] + b)[i] == (a + b)[i]; }
      else if i > |a| { assert (a + [c] + b)[i] == (a + b)[i - 1]; }
    }
  }

  /** A last group of two or three data characters closed by enough '='. */
  lemma ScanClosedLast(d: string, m: nat, tail: string, out: seq<Byte>)
    requires IsAlphabetString(d) && 2 <= |d| <= 3 && |d| + m >= 4
    ensures Scan(d + (Pads(m) + tail), Quad(0, 0, 0, out)) == Some(out + DecodeData(d))
  {
    ScanGroupData(d, Pads(m) + tail, out);
    ScanPadsClose(m, tail, AfterData(d, out));
  }

  lemma {:induction false} ScanClosed(d: string, m: nat, tail: string, out: seq<Byte>)
    requires IsAlphabetString(d)
    requires (|d| % 4 == 2 && m >= 2) || (|d| % 4 == 3 && m >= 1)
    ensures Scan(d + (Pads(m) + tail), Quad(0, 0, 0, out)) == Some(out + DecodeData(d))
    decreases |d|
  {
    if |d| >= 4 {
      var g, rest := d[..4], d[4..];
      FirstGroup(d);
      SplitConcat(d, 4, Pads(m) + tail);
      ScanGroupData(g, rest + (Pads(m) + tail), out);
      ScanClosed(rest, m, tail, out + DecodeGroup(g));
      assert out + DecodeGroup(g) + DecodeData(rest) == out + DecodeData(d);
    } else {
      ScanClosedLast(d, m, tail, out);
    }
  }

  /** Decoding stops at the padding that closes a group: what follows is never read. */
  lemma TrailingDataIgnored(d: string, m: nat, tail: string)
    requires IsAlphabetString(d) && IsAscii(tail)
    requires (|d| % 4 == 2 && m >= 2) || (|d| % 4 == 3 && m >= 1)
    ensures B64Decode(d + Pads(m) + tail) == Some(DecodeData(d))
  {
    var s := d + Pads(m) + tail;
    assert s == d + (Pads(m) + tail);
    ScanClosed(d, m, tail, []);
    assert Scan(s, Start) == Some(DecodeData(d)) by {
      assert [] + DecodeData(d) == DecodeData(d);
    }
    assert IsAscii(s) by {
      AlphabetIsAscii(d, m);
      AsciiAppend(d + Pads(m), tail);
    }
  }

  lemma AsciiAppend(a: string, b: string)
    ensures IsAscii(a + b) <==> IsAscii(a) && IsAscii(b)
  {
    if IsAscii(a) && IsAscii(b) {
      forall i | 0 <= i < |a + b| ensures (a + b)[i] as int < 128 {
        if i < |a| { assert (a + b)[i] == a[i]; } else { assert (a + b)[i] == b[i - |a|]; }
      }
    }
    if IsAscii(a + b) {
      forall i | 0 <= i < |a| ensures a[i] as int < 128 { assert (a + b)[i] == a[i]; }
      forall i | 0 <= i < |b| ensures b[i] as int < 128 { assert (a + b)[i + |a|] == b[i]; }
    }
  }

  // ---------------------------------------------------------------------
  // The two paddings agree

  lemma UrlToStdAppendPads(s: string, k: nat)
    ensures UrlToStd(s + Pads(k)) == UrlToStd(s) + Pads(k)
  {
    assert UrlToStd(s + Pads(k)) == UrlToStd(s) + Pads(k) by {
      var a, b := UrlToStd(s + Pads(k)), UrlToStd(s) + Pads(k);
      assert |a| == |b|;
      forall i | 0 <= i < |a| ensures a[i] == b[i] {
        if i >= |s| { assert (s + Pads(k))[i] == '='; }
        else { assert (s + Pads(k))[i] == s[i]; }
      }
    }
  }

  /**
   * On a base64url segment, the header path's unconditional padding and the
   * node-id path's conditional padding give the same outcome.
   */
  lemma HeaderAndNodePaddingAgree(seg: string)
    requires IsAlphabetString(UrlToStd(seg))
    ensures DecodeHeaderSegment(seg) == DecodeNodeSuffix(seg)
  {
  }

  /**
   * Outside the alphabet they differ: skipped characters count towards the
   * length that decides the padding, and the header path's four extra '='
   * complete a group the node-id path leaves open.
   */
  lemma PaddingPathsDifferOnJunk()
    ensures DecodeHeaderSegment("ab!!").Some? && DecodeNodeSuffix("ab!!").None?
  {
    var seg := "ab!!";
    assert UrlToStd(seg) == seg by {
      forall i | 0 <= i < |seg| ensures UrlToStd(seg)[i] == seg[i] {
        assert seg[i] != '-' && seg[i] != '_';
      }
    }
    assert IsAlphabetString("ab") by {
      assert IsAlphabetChar('a') && IsAlphabetChar('b');
    }
    // the header path: four '=' close the group "ab"
    assert HeaderPad(seg) == seg + Pads(4);
    UrlToStdAppendPads(seg, 4);
    assert DecodeHeaderSegment(seg) == B64Decode(seg + Pads(4));
    JunkDropped("ab", Pads(4));
    assert "ab" + "!!" + Pads(4) == seg + Pads(4);
    LenientAgreesWithReference("ab", 4);
    // the node-id path: the length is aligned, no '=' is added, the group stays open
    assert NodePad(seg) == seg;
    assert DecodeNodeSuffix(seg) == B64Decode(seg);
    JunkDropped("ab", []);
    assert "ab" + "!!" + [] == seg && "ab" + [] == "ab" + Pads(0);
    LenientAgreesWithReference("ab", 0);
  }

  lemma JunkDropped(d: string, p: string)
    ensures B64Decode(d + "!!" + p) == B64Decode(d + p)
  {
    JunkIgnored(d + "!", '!', p);
    assert d + "!!" + p == (d + "!") + ['!'] + p;
    JunkIgnored(d, '!', p);
    assert (d + "!") + p == d + ['!'] + p;
  }

  // ---------------------------------------------------------------------
  // The reference encoder and the round trip

  /** Unpadded standard base64 of a byte string. */
  function Encode(bs: seq<Byte>): (s: string)
    ensures IsAlphabetString(s)
    ensures |s| % 4 != 1 && DecodedLength(|s|) == |bs|
    decreases |bs|
  {
    if |bs| == 0 then []
    else if |bs| < 3 then EncodeGroup(bs)
    else
      var head := EncodeGroup(bs[..3]);
      var rest := Encode(bs[3..]);
      AlphabetAppend(head, rest);
      DecodedLengthShift(|rest|);
      head + rest
  }

  lemma AlphabetAppend(a: string, b: string)
    requires IsAlphabetString(a) && IsAlphabetString(b)
    ensures IsAlphabetString(a + b)
  {
    forall i | 0 <= i < |a + b| ensures IsAlphabetChar((a + b)[i]) {
      if i >= |a| { assert (a + b)[i] == b[i - |a|]; }
    }
  }

  lemma DecodedLengthShift(d: nat)
    ensures (d + 4) % 4 == d % 4 && DecodedLength(d + 4) == DecodedLength(d) + 3
  {
  }

  /** One to three bytes as 2 to 4 characters, zero bits filling the last one. */
  function EncodeGroup(g: seq<Byte>): (s: string)
    requires 1 <= |g| <= 3
    ensures IsAlphabetString(s) && |s| == |g| + 1
  {
    var b0 := g[0];
    var b1 := if |g| > 1 then g[1] else 0;
    var b2 := if |g| > 2 then g[2] else 0;
    var chars := [CharOf(b0 / 4), CharOf((b0 % 4) * 16 + b1 / 16),
                  CharOf((b1 % 16) * 4 + b2 / 64), CharOf(b2 % 64)];
    chars[..|g| + 1]
  }

  /** Standard base64 to base64url: `+` to `-`, `/` to `_`. */
  function StdToUrl(s: string): (r: string)
    ensures |r| == |s|
  {
    seq(|s|, i requires 0 <= i < |s| => if s[i] == '+' then '-' else if s[i] == '/' then '_' else s[i])
  }

  lemma UrlRoundTrip(s: string)
    requires IsAlphabetString(s)
    ensures UrlToStd(StdToUrl(s)) == s
  {
    var r := UrlToStd(StdToUrl(s));
    forall i | 0 <= i < |s| ensures r[i] == s[i] {
      assert IsAlphabetChar(s[i]);
    }
  }

  lemma OneGroup(b0: Byte, b1: Byte, b2: Byte)
    ensures (b0 / 4) * 4 + ((b0 % 4) * 16 + b1 / 16) / 16 == b0
    ensures (((b0 % 4) * 16 + b1 / 16) % 16) * 16 + ((b1 % 16) * 4 + b2 / 64) / 4 == b1
    ensures (((b1 % 16) * 4 + b2 / 64) % 4) * 64 + b2 % 64 == b2
  {
  }

  /** The 6-bit values the encoder writes for a group. */
  lemma EncodeGroupValues(g: seq<Byte>)
    requires 1 <= |g| <= 3
    ensures var s := EncodeGroup(g);
      var b1 := if |g| > 1 then g[1] else 0;
      var b2 := if |g| > 2 then g[2] else 0;
      && ValueOf(s[0]) == g[0] / 4
      && ValueOf(s[1]) == (g[0] % 4) * 16 + b1 / 16
      && (|g| > 1 ==> ValueOf(s[2]) == (b1 % 16) * 4 + b2 / 64)
      && (|g| > 2 ==> ValueOf(s[3]) == b2 % 64)
  {
  }

  /** A group decodes back to the bytes it encodes. */
  lemma DecodeEncodeGroup(g: seq<Byte>)
    requires 1 <= |g| <= 3
    ensures DecodeGroup(EncodeGroup(g)) == g
  {
    var b0 := g[0];
    var b1 := if |g| > 1 then g[1] else 0;
    var b2 := if |g| > 2 then g[2] else 0;
    OneGroup(b0, b1, b2);
    EncodeGroupValues(g);
    var s := EncodeGroup(g);
    var v0, v1 := ValueOf(s[0]), ValueOf(s[1]);
    var v2 := if |s| > 2 then ValueOf(s[2]) else 0;
    var v3 := if |s| > 3 then ValueOf(s[3]) else 0;
    var r := DecodeGroup(s);
    assert r == [v0 * 4 + v1 / 16, (v1 % 16) * 16 + v2 / 4, (v2 % 4) * 64 + v3][..|g|];
    assert r[0] == g[0];
    assert |g| > 1 ==> r[1] == g[1];
    assert |g| > 2 ==> r[2] == g[2];
  }

  /** Decoding inverts the reference encoder on every byte string. */
  lemma {:induction false} DecodeEncode(bs: seq<Byte>)
    ensures DecodeData(Encode(bs)) == bs
    decreases |bs|
  {
    var s := Encode(bs);
    if 0 < |bs| < 3 {
      DecodeEncodeGroup(bs);
    } else if |bs| >= 3 {
      var head, rest := EncodeGroup(bs[..3]), Encode(bs[3..]);
      assert s == head + rest;
      assert s[..4] == head && s[4..] == rest;
      DecodeEncodeGroup(bs[..3]);
      DecodeEncode(bs[3..]);
      assert bs == bs[..3] + bs[3..];
    }
  }

  /** An alphabet-only string whose length is not 1 mod 4 decodes once node-padded. */
  lemma NodePadDecodesData(s: string)
    requires IsAlphabetString(s) && |s| % 4 != 1
    ensures B64Decode(NodePad(s)) == Some(DecodeData(s))
  {
    var k := |NodePad(s)| - |s|;
    assert NodePad(s) == s + Pads(k);
    LenientAgreesWithReference(s, k);
  }

  /**
   * A string with one data character too many in its last group never
   * decodes, however many '=' follow it, node padding included.
   */
  lemma NodePadRejectsDanglingChar(s: string)
    requires IsAlphabetString(s) && |s| % 4 == 1
    ensures B64Decode(NodePad(s)).None?
    ensures forall m: nat :: B64Decode(s + Pads(m)).None?
  {
    forall m: nat ensures B64Decode(s + Pads(m)).None? {
      LenientAgreesWithReference(s, m);
    }
    assert NodePad(s) == s + Pads(|NodePad(s)| - |s|);
  }

  /** What GitHub writes (unpadded base64url) decodes back to the bytes. */
  lemma NodeSuffixRoundTrip(bs: seq<Byte>)
    ensures DecodeNodeSuffix(StdToUrl(Encode(bs))) == Some(bs)
  {
    var s := Encode(bs);
    UrlRoundTrip(s);
    DecodeEncode(bs);
  }

  /** An unpadded base64url header segment decodes back to its bytes. */
  lemma HeaderSegmentRoundTrip(bs: seq<Byte>)
    ensures DecodeHeaderSegment(StdToUrl(Encode(bs))) == Some(bs)
  {
    var s := Encode(bs);
    UrlRoundTrip(s);
    DecodeEncode(bs);
  }
}
