/**
 * GitHub node ids such as `O_kgDOB9m9vA`: an entity-kind prefix, the first
 * `_`, and a base64url suffix whose last four decoded bytes are the numeric
 * id used by the REST API, read as a big-endian unsigned 32-bit integer.
 */
module NodeId {
  import opened Wrappers
  import opened Base64

  const TwoTo32: int := 0x1_0000_0000

  /** `s.split(sep, 1)` when it yields two parts; None when `sep` does not occur. */
  function SplitFirst(s: string, sep: char): (r: Option<(string, string)>)
    ensures r.None? <==> sep !in s
    ensures r.Some? ==> sep !in r.value.0 && s == r.value.0 + [sep] + r.value.1
    decreases |s|
  {
    if |s| == 0 then None
    else if s[0] == sep then Some(([], s[1..]))
    else match SplitFirst(s[1..], sep)
      case None => None
      case Some((before, after)) =>
        assert s == [s[0]] + s[1..];
        Some(([s[0]] + before, after))
  }

  /** `struct.unpack('>I', b)`. */
  function BigEndian32(b: seq<Byte>): (n: nat)
    requires |b| == 4
    ensures n < TwoTo32
  {
    ((b[0] as int * 256 + b[1]) * 256 + b[2]) * 256 + b[3]
  }

  /** `struct.pack('>I', n)`: the reference encoding of a 32-bit id. */
  function Pack32(n: nat): (b: seq<Byte>)
    requires n < TwoTo32
    ensures |b| == 4
  {
    [n / 0x100_0000, (n / 0x1_0000) % 256, (n / 256) % 256, n % 256]
  }

  lemma UnpackPack(n: nat)
    requires n < TwoTo32
    ensures BigEndian32(Pack32(n)) == n
  {
    var b := Pack32(n);
    assert b[0] as int * 256 + b[1] == n / 0x1_0000;
    assert (b[0] as int * 256 + b[1]) * 256 + b[2] == n / 256;
  }

  /** The last four bytes of a byte string. */
  function LastFour(b: seq<Byte>): (t: seq<Byte>)
    requires |b| >= 4
    ensures |t| == 4 && b == b[..|b| - 4] + t
  {
    b[|b| - 4..]
  }

  /** `decode_github_node_id`: the numeric id, or None for any failure. */
  function DecodeGithubNodeId(nodeId: string): (r: Option<nat>)
    ensures '_' !in nodeId ==> r.None?
    ensures r.Some? ==> r.value < TwoTo32
  {
    match SplitFirst(nodeId, '_')
    case None => None
    case Some((_, suffix)) =>
      match DecodeNodeSuffix(suffix)
      case None => None
      case Some(bytes) =>
        if |bytes| >= 4 then Some(BigEndian32(LastFour(bytes))) else None
  }

  /**
   * Only the first `_` separates prefix from payload: whatever follows it,
   * including further `_` (read as `/`), is the suffix that gets decoded.
   */
  lemma FirstUnderscoreSplits(prefix: string, suffix: string)
    requires '_' !in prefix
    ensures DecodeGithubNodeId(prefix + "_" + suffix) ==
      match DecodeNodeSuffix(suffix)
      case None => None
      case Some(bytes) => if |bytes| >= 4 then Some(BigEndian32(LastFour(bytes))) else None
  {
    SplitUnique(prefix, suffix, '_');
  }

  lemma {:induction false} SplitUnique(prefix: string, suffix: string, sep: char)
    requires sep !in prefix
    ensures SplitFirst(prefix + [sep] + suffix, sep) == Some((prefix, suffix))
    decreases |prefix|
  {
    var s := prefix + [sep] + suffix;
    if |prefix| > 0 {
      assert s[0] == prefix[0];
      assert s[1..] == prefix[1..] + [sep] + suffix;
      SplitUnique(prefix[1..], suffix, sep);
      assert [prefix[0]] + prefix[1..] == prefix;
    } else {
      assert s[1..] == suffix;
    }
  }

  /**
   * For every id GitHub can encode: whatever the prefix and whatever bytes
   * precede the last four, the decoded id is the big-endian value of the
   * last four bytes; earlier bytes do not matter.
   */
  lemma NodeIdRoundTrip(prefix: string, lead: seq<Byte>, n: nat)
    requires '_' !in prefix && n < TwoTo32
    ensures DecodeGithubNodeId(prefix + "_" + StdToUrl(Encode(lead + Pack32(n)))) == Some(n)
  {
    var bs := lead + Pack32(n);
    FirstUnderscoreSplits(prefix, StdToUrl(Encode(bs)));
    NodeSuffixRoundTrip(bs);
    assert LastFour(bs) == Pack32(n);
    UnpackPack(n);
  }

  /** Fewer than four decoded bytes never give an id. */
  lemma ShortPayloadRejected(prefix: string, bs: seq<Byte>)
    requires '_' !in prefix && |bs| < 4
    ensures DecodeGithubNodeId(prefix + "_" + StdToUrl(Encode(bs))).None?
  {
    FirstUnderscoreSplits(prefix, StdToUrl(Encode(bs)));
    NodeSuffixRoundTrip(bs);
  }

  lemma GoldenGroups()
    ensures DecodeGroup("kgDO") == [0x92, 0x00, 0xCE]
    ensures DecodeGroup("B9m9") == [0x07, 0xD9, 0xBD]
    ensures DecodeGroup("vA") == [0xBC]
  {
    assert ValueOf('k') == 36 && ValueOf('g') == 32 && ValueOf('D') == 3 && ValueOf('O') == 14;
    assert ValueOf('B') == 1 && ValueOf('9') == 61 && ValueOf('m') == 38;
    assert ValueOf('v') == 47 && ValueOf('A') == 0;
  }

  lemma GoldenData()
    ensures IsAlphabetString("kgDOB9m9vA")
    ensures DecodeData("kgDOB9m9vA") == [0x92, 0x00, 0xCE, 0x07, 0xD9, 0xBD, 0xBC]
  {
    var suffix := "kgDOB9m9vA";
    GoldenGroups();
    var tail := suffix[4..];
    assert suffix[..4] == "kgDO" && tail[..4] == "B9m9" && tail[4..] == "vA";
    assert DecodeData(tail[4..]) == [0xBC];
    assert DecodeData(tail) == [0x07, 0xD9, 0xBD, 0xBC];
  }

  lemma GoldenUrlToStd()
    ensures UrlToStd("kgDOB9m9vA") == "kgDOB9m9vA"
  {
    var s := "kgDOB9m9vA";
    forall i | 0 <= i < |s| ensures UrlToStd(s)[i] == s[i] {
      assert s[i] != '-' && s[i] != '_';
    }
  }

  lemma GoldenSuffix()
    ensures DecodeNodeSuffix("kgDOB9m9vA") == Some([0x92, 0x00, 0xCE, 0x07, 0xD9, 0xBD, 0xBC])
  {
    GoldenUrlToStd();
    GoldenData();
    NodePadDecodesData("kgDOB9m9vA");
  }

  /** How the decoder combines its three steps, for any id. */
  lemma DecodeFromParts(nodeId: string, prefix: string, suffix: string, bytes: seq<Byte>)
    requires SplitFirst(nodeId, '_') == Some((prefix, suffix))
    requires DecodeNodeSuffix(suffix) == Some(bytes) && |bytes| >= 4
    ensures DecodeGithubNodeId(nodeId) == Some(BigEndian32(LastFour(bytes)))
  {
  }

  lemma GoldenSplit()
    ensures SplitFirst("O_kgDOB9m9vA", '_') == Some(("O", "kgDOB9m9vA"))
  {
    SplitUnique("O", "kgDOB9m9vA", '_');
    assert "O" + ['_'] + "kgDOB9m9vA" == "O_kgDOB9m9vA";
  }

  lemma GoldenLastFour()
    ensures BigEndian32(LastFour([0x92, 0x00, 0xCE, 0x07, 0xD9, 0xBD, 0xBC])) == 131710396
  {
    var bytes: seq<Byte> := [0x92, 0x00, 0xCE, 0x07, 0xD9, 0xBD, 0xBC];
    assert LastFour(bytes) == [0x07, 0xD9, 0xBD, 0xBC];
  }

  /** The example from the source's documentation: `O_kgDOB9m9vA` is 131710396. */
  lemma GoldenVector()
    ensures DecodeGithubNodeId("O_kgDOB9m9vA") == Some(131710396)
  {
    GoldenSplit();
    GoldenSuffix();
    GoldenLastFour();
    DecodeFromParts("O_kgDOB9m9vA", "O", "kgDOB9m9vA", [0x92, 0x00, 0xCE, 0x07, 0xD9, 0xBD, 0xBC]);
  }
}
