/**
 * The two buffer helpers of tests/api_client/src/ApiClient.cpp:
 * `char_append`, which appends one character to a NUL-terminated string
 * in place, and `wifi_object_builder`, which formats one WiFi access
 * point as a JSON object for a geolocation request.
 */
module ApiBuffers {
  import opened Wrappers
  import opened CInt
  import opened Text

  const NUL: char := '\0'

  /** `strlen`: the position of the first NUL. */
  function StrLen(s: seq<char>): (n: nat)
    requires NUL in s
    ensures n < |s| && s[n] == NUL
    ensures forall k :: 0 <= k < n ==> s[k] != NUL
  {
    if s[0] == NUL then 0 else 1 + StrLen(s[1..])
  }

  /** The string a NUL-terminated buffer holds. */
  function CString(s: seq<char>): string
    requires NUL in s
  {
    s[..StrLen(s)]
  }

  /** Writing `c` over the terminator and a new terminator after it appends `c` to the string held. */
  lemma AppendExtendsString(s: seq<char>, c: char)
    requires NUL in s && StrLen(s) + 1 < |s| && c != NUL
    ensures var t := s[StrLen(s) := c][StrLen(s) + 1 := NUL];
      NUL in t && StrLen(t) == StrLen(s) + 1 && CString(t) == CString(s) + [c]
  {
    var n := StrLen(s);
    var t := s[n := c][n + 1 := NUL];
    FirstNul(t, n + 1);
    assert t[..n + 1] == s[..n] + [c];
  }

  /** A buffer whose first NUL is at `n` holds a string of length `n`. */
  lemma FirstNul(s: seq<char>, n: nat)
    requires n < |s| && s[n] == NUL && forall k :: 0 <= k < n ==> s[k] != NUL
    ensures NUL in s && StrLen(s) == n
  {
  }

  /** The guard of `char_append` as written: the append is refused only when the length exceeds the size. */
  predicate AdmittedAsWritten(len: int, buffSize: int) {
    !(len > buffSize)
  }

  /** The intended guard: the character and the new terminator both fit in `buffSize` chars. */
  predicate Admitted(len: int, buffSize: int) {
    len + 2 <= buffSize
  }

  /**
   * `char_append` as written. Its guard admits a string of length
   * `buff_size` and then writes at `buff_size` and `buff_size + 1`, so this
   * member needs two chars beyond `buff_size` to stay inside the array.
   */
  method CharAppendAsWritten(buff: array<char>, c: char, buffSize: u16) returns (ok: bool)
    requires NUL in buff[..] && buff.Length >= buffSize + 2
    modifies buff
    ensures var n := StrLen(old(buff[..]));
      && ok == AdmittedAsWritten(n, buffSize)
      && buff[..] == if ok then old(buff[..])[n := c][n + 1 := NUL] else old(buff[..])
  {
    var len := StrLen(buff[..]);
    if len > buffSize as int {
      return false;
    }
    buff[len] := c;
    buff[len + 1] := NUL;
    ok := true;
  }

  /**
   * A buffer of exactly `buff_size` = 4 chars holding "abc": the guard as
   * written admits the append, whose terminator then goes to index 4,
   * one past the end of the buffer; the intended guard refuses it.
   */
  lemma CharAppendOverrun()
    ensures var buff := ['a', 'b', 'c', NUL];
      && NUL in buff && StrLen(buff) == 3
      && AdmittedAsWritten(StrLen(buff), |buff|)
      && StrLen(buff) + 1 == |buff|
      && !Admitted(StrLen(buff), |buff|)
  {
    var buff := ['a', 'b', 'c', NUL];
    FirstNul(buff, 3);
  }

  /**
   * `char_append` with the intended guard, on a buffer of `buff_size`
   * chars as its documentation says: it refuses when the character and
   * the terminator would not both fit, and otherwise appends `c` to the
   * string held, writing inside the buffer only.
   */
  method CharAppend(buff: array<char>, c: char, buffSize: u16) returns (ok: bool)
    requires NUL in buff[..] && buff.Length == buffSize
    modifies buff
    ensures var n := StrLen(old(buff[..]));
      && ok == Admitted(n, buffSize)
      && buff[..] == if ok then old(buff[..])[n := c][n + 1 := NUL] else old(buff[..])
    ensures ok && c != NUL ==> NUL in buff[..] && CString(buff[..]) == CString(old(buff[..])) + [c]
  {
    var len := StrLen(buff[..]);
    if len + 1 >= buffSize as int {
      return false;
    }
    if c != NUL {
      AppendExtendsString(buff[..], c);
    }
    buff[len] := c;
    buff[len + 1] := NUL;
    ok := true;
  }

  /** Bytes as `%02x` pieces. */
  function HexPieces(bs: seq<u8>): (r: seq<string>)
    ensures |r| == |bs| && forall i :: 0 <= i < |r| ==> r[i] == HexByte(bs[i])
  {
    if bs == [] then [] else [HexByte(bs[0])] + HexPieces(bs[1..])
  }

  /** The MAC address as `sprintf` writes it: six `%02x` pieces joined by ':'. */
  function MacText(mac: seq<u8>): string
    requires |mac| == 6
  {
    Join(HexPieces(mac), ':')
  }

  /**
   * What the `sprintf` of `wifi_object_builder` produces: the MAC address
   * in lower-case hexadecimal, then the signal strength (`%i`), an age of
   * 0 and the channel (`%d`).
   */
  function WifiObject(mac: seq<u8>, signalStrength: i32, channel: u8): string
    requires |mac| == 6
  {
    "{\"macAddress\": \"" + MacText(mac) + "\",\"signalStrength\": " + IntText(signalStrength)
    + ",\"age\": 0,\"channel\": " + IntText(channel) + "}"
  }

  const MAC_PREFIX: string := "{\"macAddress\": \""
  const SIGNAL_PREFIX: string := "\"signalStrength\": "
  const AGE_FIELD: string := "\"age\": 0"
  const CHANNEL_PREFIX: string := "\"channel\": "

  /** Reads bytes back from `%02x` pieces. */
  function ParseHexBytes(parts: seq<string>): Option<seq<u8>> {
    if parts == [] then Some([])
    else match (ParseHexByte(parts[0]), ParseHexBytes(parts[1..]))
      case (Some(b), Some(rest)) => Some([b] + rest)
      case _ => None
  }

  /** Reads the six bytes back from a MAC address text. */
  function ParseMac(s: string): Option<seq<u8>> {
    var parts := Split(s, ':');
    if |parts| != 6 then None else ParseHexBytes(parts)
  }

  lemma {:induction false} HexPiecesRoundTrip(bs: seq<u8>)
    ensures ParseHexBytes(HexPieces(bs)) == Some(bs)
  {
    if bs != [] {
      HexByteRoundTrip(bs[0]);
      HexPiecesRoundTrip(bs[1..]);
      assert HexPieces(bs)[1..] == HexPieces(bs[1..]);
      assert [bs[0]] + bs[1..] == bs;
    }
  }

  /** Reads the MAC address, signal strength and channel back from an access-point object. */
  function ParseWifiObject(s: string): Option<(seq<u8>, int, int)> {
    ParseFields(Split(s, ','))
  }

  /** Reads the four ','-separated fields of an access-point object. */
  function ParseFields(fields: seq<string>): Option<(seq<u8>, int, int)> {
    if |fields| != 4 then None
    else
      var f0, f1, f2, f3 := fields[0], fields[1], fields[2], fields[3];
      if |f0| < |MAC_PREFIX| + 1 || f0[..|MAC_PREFIX|] != MAC_PREFIX || f0[|f0| - 1] != '"' then None
      else if |f1| < |SIGNAL_PREFIX| || f1[..|SIGNAL_PREFIX|] != SIGNAL_PREFIX then None
      else if f2 != AGE_FIELD then None
      else if |f3| < |CHANNEL_PREFIX| + 1 || f3[..|CHANNEL_PREFIX|] != CHANNEL_PREFIX || f3[|f3| - 1] != '}' then None
      else
        match (ParseMac(f0[|MAC_PREFIX|..|f0| - 1]), ParseInt(f1[|SIGNAL_PREFIX|..]),
               ParseInt(f3[|CHANNEL_PREFIX|..|f3| - 1]))
        case (Some(mac), Some(sig), Some(ch)) => Some((mac, sig, ch))
        case _ => None
  }

  lemma {:induction false} JoinAvoids(segs: seq<string>, sep: char, c: char)
    requires c != sep && forall k :: 0 <= k < |segs| ==> c !in segs[k]
    ensures c !in Join(segs, sep)
  {
    if |segs| > 1 {
      JoinAvoids(segs[1..], sep, c);
    }
  }

  lemma MacTextRoundTrip(mac: seq<u8>)
    requires |mac| == 6
    ensures ParseMac(MacText(mac)) == Some(mac)
    ensures ',' !in MacText(mac) && '"' !in MacText(mac)
  {
    var pieces := HexPieces(mac);
    SplitJoin(pieces, ':');
    JoinAvoids(pieces, ':', ',');
    JoinAvoids(pieces, ':', '"');
    HexPiecesRoundTrip(mac);
  }

  /** The first field of the object: the quoted MAC address. */
  function MacField(mac: seq<u8>): string
    requires |mac| == 6
  {
    MAC_PREFIX + MacText(mac) + "\""
  }

  function SignalField(signalStrength: i32): string {
    SIGNAL_PREFIX + IntText(signalStrength)
  }

  function ChannelField(channel: u8): string {
    CHANNEL_PREFIX + IntText(channel) + "}"
  }

  lemma JoinFour(a: string, b: string, c: string, d: string, sep: char)
    ensures Join([a, b, c, d], sep) == a + [sep] + b + [sep] + c + [sep] + d
  {
    var fields := [a, b, c, d];
    assert fields[1..] == [b, c, d] && fields[1..][1..] == [c, d] && fields[1..][1..][1..] == [d];
    assert Join([d], sep) == d;
    assert Join([c, d], sep) == c + [sep] + d;
    assert Join([b, c, d], sep) == b + [sep] + (c + [sep] + d);
  }

  lemma Assoc(x: string, y: string, z: string)
    ensures x + (y + z) == (x + y) + z
  {
  }

  /** The format string, with its three kinds of conversion filled by `m`, `st` and `ch`, is four fields joined by ','. */
  lemma FormatFields(m: string, st: string, ch: string)
    ensures "{\"macAddress\": \"" + m + "\",\"signalStrength\": " + st + ",\"age\": 0,\"channel\": " + ch + "}"
         == Join([MAC_PREFIX + m + "\"", SIGNAL_PREFIX + st, AGE_FIELD, CHANNEL_PREFIX + ch + "}"], ',')
  {
    var q, c := "\"", [','];
    var f0, f1, f3 := MAC_PREFIX + m + q, SIGNAL_PREFIX + st, CHANNEL_PREFIX + ch + "}";
    JoinFour(f0, f1, AGE_FIELD, f3, ',');
    var l1, l2 := "\",\"signalStrength\": ", ",\"age\": 0,\"channel\": ";
    assert l1 == q + c + SIGNAL_PREFIX;
    assert l2 == c + AGE_FIELD + c + CHANNEL_PREFIX;
    var a := MAC_PREFIX + m;
    Assoc(a, q + c, SIGNAL_PREFIX);
    Assoc(a, q, c);
    var s1 := f0 + c + SIGNAL_PREFIX;
    assert a + l1 == s1;
    Assoc(f0 + c, SIGNAL_PREFIX, st);
    var s2 := f0 + c + f1;
    assert s1 + st == s2;
    Assoc(s2, c + AGE_FIELD + c, CHANNEL_PREFIX);
    Assoc(s2, c + AGE_FIELD, c);
    Assoc(s2, c, AGE_FIELD);
    var s3 := s2 + c + AGE_FIELD + c + CHANNEL_PREFIX;
    assert s2 + l2 == s3;
    var s4 := s2 + c + AGE_FIELD + c;
    Assoc(s4, CHANNEL_PREFIX, ch);
    Assoc(s4, CHANNEL_PREFIX + ch, "}");
    assert s3 + ch + "}" == s4 + f3;
  }

  /** The object is its four fields joined by ','. */
  lemma WifiObjectFields(mac: seq<u8>, signalStrength: i32, channel: u8)
    requires |mac| == 6
    ensures WifiObject(mac, signalStrength, channel)
         == Join([MacField(mac), SignalField(signalStrength), AGE_FIELD, ChannelField(channel)], ',')
  {
    FormatFields(MacText(mac), IntText(signalStrength), IntText(channel));
  }

  /** Fields with the expected prefixes and ends are read back to what their middles parse to. */
  lemma ParseFieldsOfTexts(m: string, st: string, ch: string, mac: seq<u8>, sig: int, chan: int)
    requires ParseMac(m) == Some(mac) && ParseInt(st) == Some(sig) && ParseInt(ch) == Some(chan)
    ensures ParseFields([MAC_PREFIX + m + "\"", SIGNAL_PREFIX + st, AGE_FIELD, CHANNEL_PREFIX + ch + "}"])
         == Some((mac, sig, chan))
  {
    var f0, f1, f3 := MAC_PREFIX + m + "\"", SIGNAL_PREFIX + st, CHANNEL_PREFIX + ch + "}";
    assert f0[..|MAC_PREFIX|] == MAC_PREFIX && f0[|MAC_PREFIX|..|f0| - 1] == m;
    assert f1[..|SIGNAL_PREFIX|] == SIGNAL_PREFIX && f1[|SIGNAL_PREFIX|..] == st;
    assert f3[..|CHANNEL_PREFIX|] == CHANNEL_PREFIX && f3[|CHANNEL_PREFIX|..|f3| - 1] == ch;
  }

  lemma ParseFieldsOf(mac: seq<u8>, signalStrength: i32, channel: u8)
    requires |mac| == 6
    ensures ParseFields([MacField(mac), SignalField(signalStrength), AGE_FIELD, ChannelField(channel)])
         == Some((mac, signalStrength as int, channel as int))
  {
    MacTextRoundTrip(mac);
    IntTextRoundTrip(signalStrength);
    IntTextRoundTrip(channel);
    ParseFieldsOfTexts(MacText(mac), IntText(signalStrength), IntText(channel), mac, signalStrength, channel);
  }

  /** The object `wifi_object_builder` formats is read back to the same address, strength and channel. */
  lemma WifiObjectRoundTrip(mac: seq<u8>, signalStrength: i32, channel: u8)
    requires |mac| == 6
    ensures ParseWifiObject(WifiObject(mac, signalStrength, channel)) == Some((mac, signalStrength as int, channel as int))
  {
    var fields := [MacField(mac), SignalField(signalStrength), AGE_FIELD, ChannelField(channel)];
    WifiObjectFields(mac, signalStrength, channel);
    MacTextRoundTrip(mac);
    IntTextChars(signalStrength);
    IntTextChars(channel);
    assert forall k :: 0 <= k < 4 ==> ',' !in fields[k];
    SplitJoin(fields, ',');
    ParseFieldsOf(mac, signalStrength, channel);
  }

  /** `sprintf(buf, "%s", s)`: the text and its terminator are written from the start of `buf`. */
  method WriteCString(buf: array<char>, s: string)
    requires buf.Length > |s|
    modifies buf
    ensures buf[..|s| + 1] == s + [NUL]
    ensures buf[|s| + 1..] == old(buf[|s| + 1..])
  {
    var i := 0;
    while i < |s|
      invariant 0 <= i <= |s|
      invariant buf[..i] == s[..i]
      invariant buf[i..] == old(buf[i..])
    {
      buf[i] := s[i];
      i := i + 1;
    }
    buf[|s|] := NUL;
  }

  /**
   * `wifi_object_builder`: formats the object into the buffer and returns
   * its length; when the length exceeds `os_len` it empties the buffer
   * (a terminator at index 0) and returns 0. The object is written before
   * the length is compared, so the buffer must hold it and its terminator.
   */
  method WifiObjectBuilder(objectString: array<char>, osLen: u32, channel: u8, signalStrength: i32, mac: seq<u8>)
    returns (n: int)
    requires |mac| == 6 && objectString.Length > |WifiObject(mac, signalStrength, channel)|
    modifies objectString
    ensures var s := WifiObject(mac, signalStrength, channel);
      && n == (if |s| > osLen as int then 0 else |s|)
      && objectString[..|s| + 1] == (if |s| > osLen as int then [NUL] + s[1..] else s) + [NUL]
      && objectString[|s| + 1..] == old(objectString[|s| + 1..])
  {
    var s := WifiObject(mac, signalStrength, channel);
    n := WriteBounded(objectString, s, osLen);
  }

  /** Writes `s` and its terminator, then empties the buffer when `s` is longer than `osLen`. */
  method WriteBounded(buf: array<char>, s: string, osLen: u32) returns (n: int)
    requires |s| >= 1 && buf.Length > |s|
    modifies buf
    ensures n == (if |s| > osLen as int then 0 else |s|)
    ensures buf[..|s| + 1] == (if |s| > osLen as int then [NUL] + s[1..] else s) + [NUL]
    ensures buf[|s| + 1..] == old(buf[|s| + 1..])
  {
    WriteCString(buf, s);
    var out := |s|;
    if out > osLen as int {
      buf[0] := NUL;
      return 0;
    }
    return out;
  }
}
