/** The display side of the terminal window: the log of received chunks
    with line-break markers, its rendering as hex or text with optional
    timestamps, line-break normalisation, the stick-to-bottom rule, and the
    window operations that drive them. */
module SerialGui {
  import opened Common
  import SerialComm

  // ---------------------------------------------------------------------
  // The receive log
  // ---------------------------------------------------------------------

  /** A gap between two notifications longer than this many milliseconds
      starts a new display line. */
  const NewlineGapMs: nat := 5

  const OpenPortFirst := "请先打开串口"
  const InvalidHexFormat := "无效的十六进制格式"
  /** The status bar text the window starts with. */
  const ReadyStatus := "就绪"

  /** One element of the receive log: a line-break marker, or a chunk with
      the stamp of its arrival (an opaque, already formatted string). */
  datatype Entry = Newline | Data(bytes: seq<Byte>, stamp: Option<string>)

  /** The gap rule: a marker goes in only once a previous notification has
      been seen (0 means none) and more than `NewlineGapMs` has passed. */
  predicate StartsNewLine(last: nat, now: nat): (b: bool)
    ensures last == 0 ==> !b
    ensures b <==> last > 0 && now > last + NewlineGapMs
  {
    last > 0 && now - last > NewlineGapMs
  }

  /** The log after one notification of `data` at instant `now`. */
  function LogAfterReceive(log: seq<Entry>, last: nat, now: nat, data: seq<Byte>, stamp: string): (r: seq<Entry>)
    ensures |log| < |r| <= |log| + 2
    ensures r[..|log|] == log && r[|r| - 1] == Data(data, Some(stamp))
  {
    log + (if StartsNewLine(last, now) then [Newline] else []) + [Data(data, Some(stamp))]
  }

  /** The number of chunk entries in `log`. */
  function DataCount(log: seq<Entry>): nat
    decreases |log|
  {
    if log == [] then 0
    else DataCount(log[..|log| - 1]) + (if log[|log| - 1].Data? then 1 else 0)
  }

  /** The shape every log keeps: it starts and ends with a chunk, and no two
      markers are adjacent. */
  ghost predicate WellFormed(log: seq<Entry>)
  {
    && (log != [] ==> log[0].Data? && log[|log| - 1].Data?)
    && forall i :: 0 <= i < |log| - 1 ==> log[i].Data? || log[i + 1].Data?
  }

  /** A notification keeps every earlier entry, ends the log with its chunk,
      and puts a marker before it exactly when the gap rule says so. */
  lemma ReceiveAppends(log: seq<Entry>, last: nat, now: nat, data: seq<Byte>, stamp: string)
    ensures var r := LogAfterReceive(log, last, now, data, stamp);
            && r[..|log|] == log
            && r[|r| - 1] == Data(data, Some(stamp))
            && |r| == |log| + 1 + (if StartsNewLine(last, now) then 1 else 0)
            && (StartsNewLine(last, now) <==> r[|log|] == Newline)
  {
  }

  /** Each notification adds exactly one chunk entry. */
  lemma ReceiveCountsOne(log: seq<Entry>, last: nat, now: nat, data: seq<Byte>, stamp: string)
    ensures DataCount(LogAfterReceive(log, last, now, data, stamp)) == DataCount(log) + 1
  {
    var r := LogAfterReceive(log, last, now, data, stamp);
    var pre := log + (if StartsNewLine(last, now) then [Newline] else []);
    assert r[..|r| - 1] == pre;
    assert DataCount(r) == DataCount(pre) + 1;
    if StartsNewLine(last, now) {
      assert pre[..|pre| - 1] == log;
    } else {
      assert pre == log;
    }
  }

  /** A notification keeps the log well formed, provided an empty log is
      only ever paired with the unset instant. */
  lemma ReceiveKeepsWellFormed(log: seq<Entry>, last: nat, now: nat, data: seq<Byte>, stamp: string)
    requires WellFormed(log)
    requires log == [] ==> last == 0
    ensures WellFormed(LogAfterReceive(log, last, now, data, stamp))
  {
    var r := LogAfterReceive(log, last, now, data, stamp);
    assert r[..|log|] == log;
    forall i | 0 <= i < |r| - 1
      ensures r[i].Data? || r[i + 1].Data?
    {
      if i < |log| - 1 {
        assert r[i] == log[i] && r[i + 1] == log[i + 1];
      } else if i == |log| - 1 {
        assert r[i] == log[i];
      }
    }
  }

  /** The first notification after start-up never inserts a marker. */
  lemma FirstReceiveNoNewline(now: nat, data: seq<Byte>, stamp: string)
    ensures LogAfterReceive([], 0, now, data, stamp) == [Data(data, Some(stamp))]
  {
  }

  // ---------------------------------------------------------------------
  // Hex rendering
  // ---------------------------------------------------------------------

  /** The lower-case hex digit of a value below 16. */
  function HexDigit(v: nat): (c: char)
    requires v < 16
    ensures SerialComm.IsHexDigit(c) && !SerialComm.IsAsciiSpace(c) && c != '\n' && c != '\r'
    ensures SerialComm.DigitValue(c) == v
    ensures '0' <= c <= '9' || 'a' <= c <= 'f'
  {
    if v < 10 then ('0' as int + v) as char else ('a' as int + v - 10) as char
  }

  /** The two hex digits of one byte, high nibble first. */
  function ByteHex(x: Byte): string
  {
    [HexDigit(x / 16), HexDigit(x % 16)]
  }

  /** `binascii.hexlify(data).decode('ascii')`. */
  function Hexlify(b: seq<Byte>): (s: string)
    ensures |s| == 2 * |b|
    decreases |b|
  {
    if b == [] then [] else ByteHex(b[0]) + Hexlify(b[1..])
  }

  /** Every byte becomes two lower-case hex digits, high nibble first. */
  lemma {:induction false} HexlifyDigits(b: seq<Byte>)
    ensures forall i :: 0 <= i < |b| ==>
              Hexlify(b)[2 * i] == HexDigit(b[i] / 16) && Hexlify(b)[2 * i + 1] == HexDigit(b[i] % 16)
    decreases |b|
  {
    if b != [] {
      var s := Hexlify(b);
      var rest := Hexlify(b[1..]);
      HexlifyDigits(b[1..]);
      assert s == ByteHex(b[0]) + rest;
      forall i | 1 <= i < |b|
        ensures s[2 * i] == HexDigit(b[i] / 16) && s[2 * i + 1] == HexDigit(b[i] % 16)
      {
        assert s[2 * i] == rest[2 * (i - 1)] && s[2 * i + 1] == rest[2 * (i - 1) + 1];
        assert b[1..][i - 1] == b[i];
      }
    }
  }

  /** `[s[i:i+2] for i in range(0, len(s), 2)]`; a trailing odd character
      makes a last piece of length one. */
  function Pairs(s: string): (r: seq<string>)
    ensures |r| == (|s| + 1) / 2
    ensures forall i :: 0 <= i < |r| ==> r[i] == s[2 * i..if 2 * i + 2 <= |s| then 2 * i + 2 else |s|]
    decreases |s|
  {
    if s == [] then []
    else if |s| <= 2 then [s]
    else
      var rest := Pairs(s[2..]);
      assert forall i :: 0 < i < |rest| + 1 ==> ([s[..2]] + rest)[i] == rest[i - 1];
      [s[..2]] + rest
  }

  /** `' '.join(parts)`. */
  function JoinSpace(parts: seq<string>): string
    decreases |parts|
  {
    if parts == [] then ""
    else if |parts| == 1 then parts[0]
    else parts[0] + " " + JoinSpace(parts[1..])
  }

  /** The hex display form of one chunk. */
  function FormatHex(b: seq<Byte>): string
  {
    JoinSpace(Pairs(Hexlify(b)))
  }

  /** Hexlify peels one byte from the front. */
  lemma HexlifyCons(b: seq<Byte>)
    requires b != []
    ensures Hexlify(b) == ByteHex(b[0]) + Hexlify(b[1..])
  {
  }

  /** Splitting the hex digits back into pairs recovers the bytes' digit
      pairs, one per byte. */
  lemma {:induction false} PairsOfHexlify(b: seq<Byte>)
    ensures |Pairs(Hexlify(b))| == |b|
    ensures forall i :: 0 <= i < |b| ==> Pairs(Hexlify(b))[i] == ByteHex(b[i])
    decreases |b|
  {
    if b != [] {
      var s := Hexlify(b);
      HexlifyCons(b);
      assert s[..2] == ByteHex(b[0]);
      assert s[2..] == Hexlify(b[1..]);
      PairsOfHexlify(b[1..]);
      if |b| == 1 {
        assert s == ByteHex(b[0]);
      } else {
        assert Pairs(s) == [ByteHex(b[0])] + Pairs(Hexlify(b[1..]));
      }
    }
  }

  /** The hex form of a chunk of two or more bytes is its first pair, a
      space, and the hex form of the rest. */
  lemma FormatHexCons(b: seq<Byte>)
    requires |b| >= 2
    ensures FormatHex(b) == ByteHex(b[0]) + " " + FormatHex(b[1..])
  {
    HexlifyCons(b);
    var s := Hexlify(b);
    assert s[..2] == ByteHex(b[0]);
    assert s[2..] == Hexlify(b[1..]);
    assert Pairs(s) == [ByteHex(b[0])] + Pairs(Hexlify(b[1..]));
    PairsOfHexlify(b[1..]);
  }

  lemma FormatHexSingle(x: Byte)
    ensures FormatHex([x]) == ByteHex(x)
  {
    HexlifyCons([x]);
    assert Hexlify([x]) == ByteHex(x);
  }

  /** Shape of the hex form of n bytes: 3n-1 characters (none when n is 0),
      byte k as two lower-case digits at positions 3k and 3k+1, and a
      single space between consecutive pairs. */
  lemma {:induction false} FormatHexShape(b: seq<Byte>)
    ensures |FormatHex(b)| == if b == [] then 0 else 3 * |b| - 1
    ensures forall k :: 0 <= k < |b| ==>
              FormatHex(b)[3 * k] == HexDigit(b[k] / 16) && FormatHex(b)[3 * k + 1] == HexDigit(b[k] % 16)
    ensures forall k :: 0 <= k < |b| - 1 ==> FormatHex(b)[3 * k + 2] == ' '
    decreases |b|
  {
    if |b| == 1 {
      FormatHexSingle(b[0]);
    } else if |b| >= 2 {
      var t := b[1..];
      FormatHexCons(b);
      FormatHexShape(t);
      var s := FormatHex(b);
      var r := FormatHex(t);
      assert s == ByteHex(b[0]) + " " + r;
      forall k | 1 <= k < |b|
        ensures s[3 * k] == HexDigit(b[k] / 16) && s[3 * k + 1] == HexDigit(b[k] % 16)
      {
        assert s[3 * k] == r[3 * (k - 1)] && s[3 * k + 1] == r[3 * (k - 1) + 1];
        assert t[k - 1] == b[k];
      }
      forall k | 1 <= k < |b| - 1
        ensures s[3 * k + 2] == ' '
      {
        assert s[3 * k + 2] == r[3 * (k - 1) + 2];
      }
    } else {
      assert Hexlify(b) == [];
    }
  }

  /** Removing the spaces from the hex form leaves exactly the hex digits. */
  lemma {:induction false} StripFormatHex(b: seq<Byte>)
    ensures SerialComm.StripSpaces(FormatHex(b)) == Hexlify(b)
    decreases |b|
  {
    if |b| == 1 {
      FormatHexSingle(b[0]);
      HexlifyCons(b);
      SerialComm.StripSpacesNoop(ByteHex(b[0]));
    } else if |b| >= 2 {
      FormatHexCons(b);
      HexlifyCons(b);
      StripFormatHex(b[1..]);
      SerialComm.StripSpacesAppend(ByteHex(b[0]) + " ", FormatHex(b[1..]));
      SerialComm.StripSpacesAppend(ByteHex(b[0]), " ");
      SerialComm.StripSpacesNoop(ByteHex(b[0]));
      assert SerialComm.StripSpaces(" ") == [];
      assert SerialComm.StripSpaces(ByteHex(b[0]) + " ") == ByteHex(b[0]);
    } else {
      assert Hexlify(b) == [];
    }
  }

  /** `bytes.fromhex` inverts hexlify. */
  lemma {:induction false} FromHexHexlify(b: seq<Byte>)
    ensures SerialComm.FromHex(Hexlify(b)) == Some(b)
    decreases |b|
  {
    if b != [] {
      var s := Hexlify(b);
      HexlifyCons(b);
      var hi, lo := HexDigit(b[0] / 16), HexDigit(b[0] % 16);
      assert s[0] == hi && s[1] == lo;
      assert s[2..] == Hexlify(b[1..]);
      FromHexHexlify(b[1..]);
      assert SerialComm.DigitValue(hi) == b[0] / 16 && SerialComm.DigitValue(lo) == b[0] % 16;
      assert 16 * (b[0] / 16) + b[0] % 16 == b[0];
      assert !SerialComm.IsAsciiSpace(s[0]) && |s| != 1;
      assert SerialComm.IsHexDigit(s[0]) && SerialComm.IsHexDigit(s[1]);
      assert 16 * SerialComm.DigitValue(s[0]) + SerialComm.DigitValue(s[1]) == b[0];
      assert SerialComm.FromHex(s) == Some([b[0]] + b[1..]);
      assert [b[0]] + b[1..] == b;
    }
  }

  /** Round trip: a chunk shown in hex, pasted back into a hex-mode send,
      is accepted and written as the original bytes. */
  lemma HexDisplayRoundTrip(b: seq<Byte>)
    ensures SerialComm.HexPayload(FormatHex(b)) == Some(b)
  {
    StripFormatHex(b);
    FromHexHexlify(b);
  }

  // ---------------------------------------------------------------------
  // Text rendering
  // ---------------------------------------------------------------------

  /** The text of one chunk: its hex form, or its decoding (`decode` stands
      for UTF-8 decoding with replacement of invalid sequences). */
  function ChunkText(bytes: seq<Byte>, hexMode: bool, decode: seq<Byte> -> string): string
  {
    if hexMode then FormatHex(bytes) else decode(bytes)
  }

  /** What one log entry contributes to the display text. */
  function EntryText(e: Entry, hexMode: bool, showStamp: bool, decode: seq<Byte> -> string): string
  {
    match e
    case Newline => "\n"
    case Data(bytes, stamp) =>
      if showStamp && stamp.Some? then stamp.value + " " + ChunkText(bytes, hexMode, decode)
      else ChunkText(bytes, hexMode, decode)
  }

  /** The texts `text` gives the entries of `log`, in log order, with no
      separator. */
  function JoinTexts(log: seq<Entry>, text: Entry -> string): string
    decreases |log|
  {
    if log == [] then "" else JoinTexts(log[..|log| - 1], text) + text(log[|log| - 1])
  }

  /** The display text before line-break normalisation: the entries'
      contributions in log order, with no separator. */
  function Render(log: seq<Entry>, hexMode: bool, showStamp: bool, decode: seq<Byte> -> string): (r: string)
    ensures log == [] ==> r == ""
  {
    JoinTexts(log, Shown(hexMode, showStamp, decode))
  }

  /** `EntryText` under fixed display settings. */
  function Shown(hexMode: bool, showStamp: bool, decode: seq<Byte> -> string): Entry -> string
  {
    e => EntryText(e, hexMode, showStamp, decode)
  }

  /** Appending one entry appends its text. */
  lemma JoinTextsSnoc(log: seq<Entry>, e: Entry, text: Entry -> string)
    ensures JoinTexts(log + [e], text) == JoinTexts(log, text) + text(e)
  {
    assert (log + [e])[..|log|] == log;
  }

  /** Rendering distributes over concatenation of logs. */
  lemma {:induction false} JoinTextsAppend(a: seq<Entry>, b: seq<Entry>, text: Entry -> string)
    ensures JoinTexts(a + b, text) == JoinTexts(a, text) + JoinTexts(b, text)
    decreases |b|
  {
    if b == [] {
      assert a + b == a;
    } else {
      var b' := b[..|b| - 1];
      var e := b[|b| - 1];
      assert b == b' + [e];
      assert a + b == (a + b') + [e];
      JoinTextsSnoc(a + b', e, text);
      JoinTextsSnoc(b', e, text);
      JoinTextsAppend(a, b', text);
    }
  }

  /** A three-entry log renders as its entries' texts in order. */
  lemma JoinTextsThree(e0: Entry, e1: Entry, e2: Entry, text: Entry -> string)
    ensures JoinTexts([e0, e1, e2], text) == text(e0) + text(e1) + text(e2)
  {
    assert JoinTexts([e0], text) == text(e0) by {
      assert [e0][..0] == [];
    }
    assert JoinTexts([e0, e1], text) == text(e0) + text(e1) by {
      assert [e0, e1][..1] == [e0];
    }
    assert [e0, e1, e2][..2] == [e0, e1];
  }

  /** Two chunks separated by a marker, in text mode: the marker is the
      only thing between them; with stamps on each chunk is preceded by
      its stamp and one space. */
  lemma RenderExample(decode: seq<Byte> -> string)
    requires decode([0x41, 0x42]) == "AB" && decode([0x43, 0x44]) == "CD"
    ensures var log := [Data([0x41, 0x42], Some("T1")), Newline, Data([0x43, 0x44], Some("T2"))];
            && Render(log, false, false, decode) == "AB\nCD"
            && Render(log, false, true, decode) == "T1 AB\nT2 CD"
  {
    var e0 := Data([0x41, 0x42], Some("T1"));
    var e2 := Data([0x43, 0x44], Some("T2"));
    var plain := Shown(false, false, decode);
    var stamped := Shown(false, true, decode);
    JoinTextsThree(e0, Newline, e2, plain);
    JoinTextsThree(e0, Newline, e2, stamped);
    assert plain(e0) == "AB" && plain(Newline) == "\n" && plain(e2) == "CD";
    assert stamped(e0) == "T1 AB" && stamped(Newline) == "\n" && stamped(e2) == "T2 CD";
  }

  /** Occurrences of `c` in `s`. */
  function Occurrences(s: string, c: char): nat
    decreases |s|
  {
    if s == [] then 0 else Occurrences(s[..|s| - 1], c) + (if s[|s| - 1] == c then 1 else 0)
  }

  lemma {:induction false} OccurrencesAppend(a: string, b: string, c: char)
    ensures Occurrences(a + b, c) == Occurrences(a, c) + Occurrences(b, c)
    decreases |b|
  {
    if b == [] {
      assert a + b == a;
    } else {
      assert (a + b)[..|a + b| - 1] == a + b[..|b| - 1];
      OccurrencesAppend(a, b[..|b| - 1], c);
    }
  }

  lemma {:induction false} OccurrencesNone(s: string, c: char)
    requires forall i :: 0 <= i < |s| ==> s[i] != c
    ensures Occurrences(s, c) == 0
    decreases |s|
  {
    if s != [] {
      OccurrencesNone(s[..|s| - 1], c);
    }
  }

  /** The number of markers in `log`. */
  function NewlineCount(log: seq<Entry>): nat
    decreases |log|
  {
    if log == [] then 0
    else NewlineCount(log[..|log| - 1]) + (if log[|log| - 1].Newline? then 1 else 0)
  }

  /** The hex form of a chunk holds only hex digits and spaces. */
  lemma FormatHexCharacters(b: seq<Byte>)
    ensures forall i :: 0 <= i < |FormatHex(b)| ==> FormatHex(b)[i] == ' ' || SerialComm.IsHexDigit(FormatHex(b)[i])
  {
    FormatHexShape(b);
    var s := FormatHex(b);
    forall i | 0 <= i < |s|
      ensures s[i] == ' ' || SerialComm.IsHexDigit(s[i])
    {
      var k := i / 3;
      if i == 3 * k + 2 {
        assert k < |b| - 1;
      } else if i == 3 * k {
        assert s[i] == HexDigit(b[k] / 16);
      } else {
        assert s[i] == HexDigit(b[k] % 16);
      }
    }
  }

  /** In hex mode without stamps, the display has exactly one line break
      per marker and no carriage return. */
  lemma {:induction false} HexRenderLineBreaks(log: seq<Entry>, decode: seq<Byte> -> string)
    ensures Occurrences(Render(log, true, false, decode), '\n') == NewlineCount(log)
    ensures Occurrences(Render(log, true, false, decode), '\r') == 0
    decreases |log|
  {
    if log != [] {
      var init := log[..|log| - 1];
      var e := log[|log| - 1];
      HexRenderLineBreaks(init, decode);
      var t := EntryText(e, true, false, decode);
      OccurrencesAppend(Render(init, true, false, decode), t, '\n');
      OccurrencesAppend(Render(init, true, false, decode), t, '\r');
      if e.Data? {
        FormatHexCharacters(e.bytes);
        OccurrencesNone(t, '\n');
        OccurrencesNone(t, '\r');
      } else {
        assert t == "\n";
        assert Occurrences(t, '\n') == 1 && Occurrences(t, '\r') == 0 by {
          assert t[..0] == "";
        }
      }
    }
  }

  /** Builds the display text entry by entry, as the display refresh
      does. */
  method BuildDisplayText(log: seq<Entry>, hexMode: bool, showStamp: bool, decode: seq<Byte> -> string)
    returns (text: string)
    ensures text == Render(log, hexMode, showStamp, decode)
  {
    text := "";
    for i := 0 to |log|
      invariant text == Render(log[..i], hexMode, showStamp, decode)
    {
      assert log[..i + 1][..i] == log[..i];
      var item := log[i];
      if item.Newline? {
        text := text + "\n";
      } else {
        var chunk := ChunkText(item.bytes, hexMode, decode);
        if showStamp && item.stamp.Some? {
          text := text + (item.stamp.value + " " + chunk);
        } else {
          text := text + chunk;
        }
      }
    }
    assert log[..|log|] == log;
  }

  // ---------------------------------------------------------------------
  // Line-break normalisation
  // ---------------------------------------------------------------------

  /** `s.replace('\r\n', '\n')`: one left-to-right pass over
      non-overlapping occurrences. */
  function ReplaceCrLf(s: string): (r: string)
    ensures |r| <= |s|
    decreases |s|
  {
    if s == [] then []
    else if |s| >= 2 && s[0] == '\r' && s[1] == '\n' then "\n" + ReplaceCrLf(s[2..])
    else [s[0]] + ReplaceCrLf(s[1..])
  }

  /** `s.replace('\r', '\n')`: every carriage return becomes a line feed
      and every other character stays. */
  function ReplaceCr(s: string): (r: string)
    ensures |r| == |s|
    ensures forall i :: 0 <= i < |s| ==> r[i] == if s[i] == '\r' then '\n' else s[i]
    decreases |s|
  {
    if s == [] then []
    else [if s[0] == '\r' then '\n' else s[0]] + ReplaceCr(s[1..])
  }

  /** The two replacements of the display refresh, in order. */
  function Normalize(s: string): (r: string)
    ensures '\r' !in r
    ensures |r| <= |s|
  {
    ReplaceCr(ReplaceCrLf(s))
  }

  /** An independent one-pass reading of the same normalisation: a
      carriage return followed by a line feed, or a lone carriage return,
      is one line feed. */
  function LineBreaks(s: string): string
    decreases |s|
  {
    if s == [] then []
    else if s[0] == '\r' then
      "\n" + LineBreaks(if |s| >= 2 && s[1] == '\n' then s[2..] else s[1..])
    else [s[0]] + LineBreaks(s[1..])
  }

  lemma ReplaceCrAppend(a: string, b: string)
    ensures ReplaceCr(a + b) == ReplaceCr(a) + ReplaceCr(b)
  {
    var ab := a + b;
    var l := ReplaceCr(ab);
    var x, y := ReplaceCr(a), ReplaceCr(b);
    var r := x + y;
    assert |l| == |r|;
    forall i | 0 <= i < |l|
      ensures l[i] == r[i]
    {
      if i < |a| {
        assert ab[i] == a[i];
        assert r[i] == x[i];
      } else {
        assert ab[i] == b[i - |a|];
        assert r[i] == y[i - |a|];
      }
    }
  }

  /** The two replacements in sequence are the one-pass reading. */
  lemma {:induction false} NormalizeIsLineBreaks(s: string)
    ensures Normalize(s) == LineBreaks(s)
    decreases |s|
  {
    if s != [] {
      if |s| >= 2 && s[0] == '\r' && s[1] == '\n' {
        NormalizeIsLineBreaks(s[2..]);
        ReplaceCrAppend("\n", ReplaceCrLf(s[2..]));
      } else {
        NormalizeIsLineBreaks(s[1..]);
        ReplaceCrAppend([s[0]], ReplaceCrLf(s[1..]));
      }
    }
  }

  lemma {:induction false} ReplaceCrLfNoCr(s: string)
    requires '\r' !in s
    ensures ReplaceCrLf(s) == s
    decreases |s|
  {
    if s != [] {
      assert s[0] in s;
      assert '\r' !in s[1..];
      ReplaceCrLfNoCr(s[1..]);
    }
  }

  /** Text without carriage returns passes through unchanged. */
  lemma NormalizeNoCr(s: string)
    requires '\r' !in s
    ensures Normalize(s) == s
  {
    ReplaceCrLfNoCr(s);
    var r := ReplaceCr(s);
    forall i | 0 <= i < |s|
      ensures r[i] == s[i]
    {
      assert s[i] in s;
    }
  }

  /** Normalising twice changes nothing more. */
  lemma NormalizeIdempotent(s: string)
    ensures Normalize(Normalize(s)) == Normalize(s)
  {
    NormalizeNoCr(Normalize(s));
  }

  /** The step exists twice because one replacement is not enough: after
      the first pass "\r\r\n" still holds a carriage return. */
  lemma CrLfAloneLeavesCr()
    ensures ReplaceCrLf("\r\r\n") == "\r\n"
    ensures Normalize("\r\r\n") == "\n\n"
  {
    assert "\r\r\n"[1..] == "\r\n";
    assert "\r\n"[2..] == "";
  }

  /** The stick-to-bottom rule: within ten steps of the maximum, or there
      is nothing to scroll. */
  predicate AtBottom(value: nat, maximum: nat): (b: bool)
    ensures value >= maximum ==> b
    ensures maximum > 10 && value + 10 < maximum ==> !b
  {
    value + 10 >= maximum || maximum == 0
  }

  // ---------------------------------------------------------------------
  // The window
  // ---------------------------------------------------------------------

  class Window {
    /** The receive log shown by the display refresh. */
    var log: seq<Entry>
    /** The instant of the previous notification; 0 before the first. */
    var lastReceiveTime: nat
    /** The raw receive buffer used by saving; no operation here appends to it. */
    var receivedData: seq<Byte>
    var currentDataTimestamp: Option<string>
    /** None until the clear operation first assigns it. */
    var dataPackets: Option<seq<seq<Byte>>>
    /** The content of the receive text area. */
    var text: string
    /** The "lock scroll" check box. */
    var lockScroll: bool
    /** The status bar message. */
    var status: string

    /** Notifications recorded in the log. */
    ghost var notified: nat

    ghost predicate Valid()
      reads this`log, this`lastReceiveTime, this`notified
    {
      && WellFormed(log)
      && (log == [] ==> lastReceiveTime == 0)
      && DataCount(log) == notified
    }

    constructor ()
      ensures Valid()
      ensures log == [] && lastReceiveTime == 0 && notified == 0
      ensures receivedData == [] && currentDataTimestamp == None && dataPackets == None
      ensures text == "" && !lockScroll && status == ReadyStatus
    {
      log, lastReceiveTime, notified := [], 0, 0;
      receivedData, currentDataTimestamp, dataPackets := [], None, None;
      text, lockScroll, status := "", false, ReadyStatus;
    }

    /** Redraws the receive area from the log. `scrollValue` and
        `scrollMaximum` are the scroll bar's readings before the redraw;
        the result says whether a scroll to the bottom is scheduled. */
    method UpdateReceiveDisplay(hexMode: bool, showStamp: bool, scrollValue: nat, scrollMaximum: nat,
                                decode: seq<Byte> -> string)
      returns (scrollScheduled: bool)
      modifies this`text
      ensures log == [] ==> text == "" && !scrollScheduled
      ensures log != [] ==> && text == Normalize(Render(log, hexMode, showStamp, decode))
                            && (scrollScheduled <==> AtBottom(scrollValue, scrollMaximum))
    {
      if log == [] {
        text := "";
        return false;
      }
      var atBottom := scrollValue + 10 >= scrollMaximum || scrollMaximum == 0;
      text := "";
      var displayText := BuildDisplayText(log, hexMode, showStamp, decode);
      displayText := ReplaceCrLf(displayText);
      displayText := ReplaceCr(displayText);
      text := displayText;
      scrollScheduled := atBottom;
    }

    /** The callback for one chunk arriving at instant `now`, stamped
        `stamp`; it records the chunk and redraws. */
    method OnDataReceived(now: nat, data: seq<Byte>, stamp: string,
                          hexMode: bool, showStamp: bool, scrollValue: nat, scrollMaximum: nat,
                          decode: seq<Byte> -> string)
      returns (scrollScheduled: bool)
      requires Valid()
      modifies this`log, this`lastReceiveTime, this`notified, this`text
      ensures Valid()
      ensures log == LogAfterReceive(old(log), old(lastReceiveTime), now, data, stamp)
      ensures lastReceiveTime == now && notified == old(notified) + 1
      ensures text == Normalize(Render(log, hexMode, showStamp, decode))
      ensures scrollScheduled <==> AtBottom(scrollValue, scrollMaximum)
    {
      ghost var before, last := log, lastReceiveTime;
      if lastReceiveTime > 0 && now - lastReceiveTime > NewlineGapMs {
        log := log + [Newline];
      }
      lastReceiveTime := now;
      log := log + [Data(data, Some(stamp))];
      notified := notified + 1;
      assert log == LogAfterReceive(before, last, now, data, stamp);
      ReceiveKeepsWellFormed(before, last, now, data, stamp);
      ReceiveCountsOne(before, last, now, data, stamp);
      scrollScheduled := UpdateReceiveDisplay(hexMode, showStamp, scrollValue, scrollMaximum, decode);
    }

    /** The scheduled scroll: the cursor and the scroll bar go to the end
        (the new scroll value is returned) and the lock box is unticked. */
    method ScrollToBottom(scrollMaximum: nat) returns (scrollValue: nat)
      modifies this`lockScroll
      ensures scrollValue == scrollMaximum && AtBottom(scrollValue, scrollMaximum)
      ensures !lockScroll
    {
      scrollValue := scrollMaximum;
      lockScroll := false;
    }

    /** The clear button as written: the raw buffer, the stamp and the text
        area are reset and an unused packet list is assigned, but the log
        and the previous instant are kept. */
    method ClearReceive()
      requires Valid()
      modifies this`receivedData, this`currentDataTimestamp, this`text, this`dataPackets
      ensures Valid()
      ensures receivedData == [] && currentDataTimestamp == None && text == "" && dataPackets == Some([])
      ensures log == old(log) && lastReceiveTime == old(lastReceiveTime)
    {
      receivedData := [];
      currentDataTimestamp := None;
      text := "";
      dataPackets := Some([]);
      text := "";
    }

    /** The clear button as evidently intended: the log is emptied as well,
        together with the previous instant so that the next chunk does not
        start with a marker. */
    method ClearReceiveCorrected()
      requires Valid()
      modifies this`receivedData, this`currentDataTimestamp, this`text, this`dataPackets,
               this`log, this`lastReceiveTime, this`notified
      ensures Valid()
      ensures receivedData == [] && currentDataTimestamp == None && text == "" && dataPackets == Some([])
      ensures log == [] && lastReceiveTime == 0 && notified == 0
    {
      receivedData := [];
      currentDataTimestamp := None;
      text := "";
      dataPackets := Some([]);
      log, lastReceiveTime, notified := [], 0, 0;
    }

    /** The send button, with `port` the transport object. `intParses` is the
        outcome of the loose integer parse the window applies to hex input
        without its spaces; the remaining parameters are passed on to the
        transport's send. The result is the warning shown, if any. */
    method SendData(port: SerialComm.SerialPort, data: string, isHex: bool, intParses: bool,
                    encode: string -> seq<Byte>, fromHexFailure: string, writeFailure: Option<string>)
      returns (warning: Option<string>)
      requires port.Valid()
      modifies this`status, port`written
      ensures port.Valid()
      ensures !port.isOpen ==> warning == Some(OpenPortFirst) && status == old(status) && port.written == old(port.written)
      ensures port.isOpen && data == "" ==> warning == None && status == old(status) && port.written == old(port.written)
      ensures port.isOpen && data != "" && isHex && !intParses ==>
                warning == Some(InvalidHexFormat) && status == old(status) && port.written == old(port.written)
      ensures port.isOpen && data != "" && (!isHex || intParses) ==>
                && warning == None
                && match SerialComm.Payload(data, isHex, encode)
                   case None =>
                     status == SerialComm.SendFailedPrefix + fromHexFailure && port.written == old(port.written)
                   case Some(bytes) =>
                     if writeFailure.None? then
                       status == SerialComm.SentMessage(|bytes|) && port.written == old(port.written) + [bytes]
                     else
                       status == SerialComm.SendFailedPrefix + writeFailure.value && port.written == old(port.written)
    {
      if !port.isOpen {
        return Some(OpenPortFirst);
      }
      if data == "" {
        return None;
      }
      if isHex && !intParses {
        return Some(InvalidHexFormat);
      }
      var ok, msg := port.SendData(data, isHex, encode, fromHexFailure, writeFailure);
      status := msg;
      warning := None;
    }
  }

  /** A decoder that is never consulted in hex mode. */
  function NoDecode(b: seq<Byte>): string
  {
    ""
  }

  /** Clearing as written: a chunk received after the clear brings the
      chunk from before the clear back onto the screen. */
  method ClearKeepsHistory() returns (shown: string)
    ensures shown == "abcd"
  {
    var w := new Window();
    var _ := w.OnDataReceived(100, [0xAB], "T1", true, false, 0, 0, NoDecode);
    w.ClearReceive();
    var _ := w.OnDataReceived(101, [0xCD], "T2", true, false, 0, 0, NoDecode);
    assert w.log == [Data([0xAB], Some("T1")), Data([0xCD], Some("T2"))];
    RenderTwoHexChunks(0xAB, 0xCD, "T1", "T2");
    assert ByteHex(0xAB) == "ab" && ByteHex(0xCD) == "cd";
    shown := w.text;
  }

  /** Clearing as intended: only the chunk received after the clear is
      shown. */
  method ClearForgetsHistory() returns (shown: string)
    ensures shown == "cd"
  {
    var w := new Window();
    var _ := w.OnDataReceived(100, [0xAB], "T1", true, false, 0, 0, NoDecode);
    w.ClearReceiveCorrected();
    assert w.log == [] && w.lastReceiveTime == 0;
    assert LogAfterReceive([], 0, 101, [0xCD], "T2") == [Data([0xCD], Some("T2"))] by {
      assert !StartsNewLine(0, 101);
    }
    var _ := w.OnDataReceived(101, [0xCD], "T2", true, false, 0, 0, NoDecode);
    RenderOneHexChunk(0xCD, "T2");
    assert ByteHex(0xCD) == "cd";
    shown := w.text;
  }

  lemma RenderOneHexChunk(x: Byte, t: string)
    ensures Normalize(Render([Data([x], Some(t))], true, false, NoDecode)) == ByteHex(x)
  {
    var e := Data([x], Some(t));
    FormatHexSingle(x);
    assert Render([e], true, false, NoDecode) == ByteHex(x) by {
      assert [e][..0] == [];
      assert JoinTexts([e], Shown(true, false, NoDecode)) == "" + Shown(true, false, NoDecode)(e);
      assert Shown(true, false, NoDecode)(e) == FormatHex([x]);
    }
    NormalizeNoCr(ByteHex(x));
  }

  lemma RenderTwoHexChunks(x: Byte, y: Byte, t: string, u: string)
    ensures Normalize(Render([Data([x], Some(t)), Data([y], Some(u))], true, false, NoDecode)) == ByteHex(x) + ByteHex(y)
  {
    var e, f := Data([x], Some(t)), Data([y], Some(u));
    FormatHexSingle(x);
    FormatHexSingle(y);
    assert Render([e], true, false, NoDecode) == ByteHex(x) by {
      assert [e][..0] == [];
      assert JoinTexts([e], Shown(true, false, NoDecode)) == "" + Shown(true, false, NoDecode)(e);
      assert Shown(true, false, NoDecode)(e) == FormatHex([x]);
    }
    assert Render([e, f], true, false, NoDecode) == ByteHex(x) + ByteHex(y) by {
      assert [e, f][..1] == [e];
      assert Shown(true, false, NoDecode)(f) == FormatHex([y]);
    }
    NormalizeNoCr(ByteHex(x) + ByteHex(y));
  }
}
