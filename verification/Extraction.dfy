/** What the server takes out of one received chunk, and out of a whole stream. */
module Extraction {
  import opened Bytes
  import opened DeviceSpec

  /** The prefix through the first newline, or everything. */
  function UpToNewline(s: seq<byte>): seq<byte> {
    if s == [] then [] else if s[0] == NEWLINE then [NEWLINE] else [s[0]] + UpToNewline(s[1..])
  }

  /** What a C string function sees: the prefix before the first NUL. */
  function CString(s: seq<byte>): seq<byte> {
    if s == [] || s[0] == NUL then [] else [s[0]] + CString(s[1..])
  }

  /** The bytes of a chunk that reach the device. */
  function Payload(chunk: seq<byte>): seq<byte> {
    CString(UpToNewline(chunk))
  }

  /** The only newline, if any, is the last byte. */
  ghost predicate NewlineLast(s: seq<byte>) {
    forall i :: 0 <= i < |s| - 1 ==> s[i] != NEWLINE
  }

  /** The prefix is characterised by where its only newline may be. */
  lemma {:induction false} UpToNewlineShape(s: seq<byte>)
    ensures var r := UpToNewline(s);
            && r <= s
            && (s != [] ==> r != [])
            && (EndsInNewline(r) <==> NEWLINE in s)
            && (NEWLINE !in s ==> r == s)
            && NewlineLast(r)
  {
    if s != [] && s[0] != NEWLINE {
      UpToNewlineShape(s[1..]);
      assert s == [s[0]] + s[1..];
    }
  }

  lemma {:induction false} UpToNewlineAppend(a: seq<byte>, b: seq<byte>)
    ensures UpToNewline(a + b) == if NEWLINE in a then UpToNewline(a) else a + UpToNewline(b)
  {
    if a == [] {
      assert a + b == b;
    } else if a[0] != NEWLINE {
      UpToNewlineAppend(a[1..], b);
      UpToNewlineSkips(a, b, if NEWLINE in a[1..] then UpToNewline(a[1..]) else a[1..] + UpToNewline(b));
    }
  }

  lemma UpToNewlineSkips(a: seq<byte>, b: seq<byte>, rest: seq<byte>)
    requires a != [] && a[0] != NEWLINE && UpToNewline(a[1..] + b) == rest
    ensures UpToNewline(a + b) == [a[0]] + rest
    ensures NEWLINE in a <==> NEWLINE in a[1..]
    ensures a + UpToNewline(b) == [a[0]] + (a[1..] + UpToNewline(b))
  {
    assert (a + b)[1..] == a[1..] + b;
    assert a == [a[0]] + a[1..];
  }

  /** A C string ends just before the first NUL, and only there. */
  lemma {:induction false} CStringShape(s: seq<byte>)
    ensures var r := CString(s);
            r <= s && NUL !in r && (|r| == |s| || s[|r|] == NUL)
    ensures |CString(s)| == |s| <==> NUL !in s
    ensures NUL !in s ==> CString(s) == s
  {
    if s != [] {
      CStringShape(s[1..]);
      assert s == [s[0]] + s[1..];
    }
  }

  /** A payload is a prefix of its chunk whose only newline, if any, is its last byte. */
  lemma PayloadShape(chunk: seq<byte>)
    ensures var p := Payload(chunk);
            && p <= chunk
            && (NEWLINE !in chunk ==> NEWLINE !in p)
            && (NUL !in chunk ==> p == UpToNewline(chunk))
            && NewlineLast(p)
  {
    UpToNewlineShape(chunk);
    CStringShape(UpToNewline(chunk));
  }

  /** What the receive loop hands to the device for a stream without a seek
      command: chunk by chunk until one holds a newline. */
  function Sent(chunks: seq<seq<byte>>): seq<byte> {
    if chunks == [] then []
    else Payload(chunks[0]) + if NEWLINE in chunks[0] then [] else Sent(chunks[1..])
  }

  lemma {:induction false} SentSize(chunks: seq<seq<byte>>)
    ensures var packet := UpToNewline(Concat(chunks));
            && |Sent(chunks)| <= |packet|
            && (|Sent(chunks)| == |packet| <==> NUL !in packet)
            && (NUL !in packet ==> Sent(chunks) == packet)
  {
    if chunks != [] {
      var c, rest := chunks[0], Concat(chunks[1..]);
      SentSize(chunks[1..]);
      UpToNewlineShape(c);
      UpToNewlineAppend(c, rest);
      CStringShape(UpToNewline(c));
    }
  }

  lemma SentCons(first: seq<byte>, rest: seq<seq<byte>>)
    requires NEWLINE !in first
    ensures Sent([first] + rest) == Payload(first) + Sent(rest)
  {
  }

  /** One more chunk of a stream that has had no newline yet. */
  lemma {:induction false} SentSnoc(front: seq<seq<byte>>, chunk: seq<byte>)
    requires NEWLINE !in Concat(front)
    ensures Sent(front + [chunk]) == Sent(front) + Payload(chunk)
  {
    if front == [] {
      assert [chunk][1..] == [];
    } else {
      var (first, rest) := (front[0], front[1..]);
      assert NEWLINE !in first && NEWLINE !in Concat(rest);
      SentSnoc(rest, chunk);
      SentCons(first, rest);
      SentCons(first, rest + [chunk]);
      assert front == [first] + rest && front + [chunk] == [first] + (rest + [chunk]);
    }
  }

  lemma SentNext(chunks: seq<seq<byte>>, n: nat)
    requires n < |chunks| && NEWLINE !in Concat(chunks[..n])
    ensures Sent(chunks[..n + 1]) == Sent(chunks[..n]) + Payload(chunks[n])
  {
    assert chunks[..n + 1] == chunks[..n] + [chunks[n]];
    SentSnoc(chunks[..n], chunks[n]);
  }

  lemma {:induction false} SentQuiet(chunks: seq<seq<byte>>)
    requires NEWLINE !in Concat(chunks)
    ensures NEWLINE !in Sent(chunks)
  {
    if chunks != [] {
      SentQuiet(chunks[1..]);
      PayloadShape(chunks[0]);
    }
  }

  /** Its only newline, if any, is its last byte. */
  lemma {:induction false} SentShape(chunks: seq<seq<byte>>)
    ensures NewlineLast(Sent(chunks))
  {
    if chunks != [] {
      SentShape(chunks[1..]);
      PayloadShape(chunks[0]);
      if NEWLINE !in chunks[0] {
        LastOnly(Payload(chunks[0]), Sent(chunks[1..]));
      }
    }
  }

  lemma LastOnly(p: seq<byte>, rest: seq<byte>)
    requires NEWLINE !in p && NewlineLast(rest)
    ensures NewlineLast(p + rest)
  {
  }

  /** What the first chunks give is a prefix, and all of it once it ends in a newline. */
  lemma {:induction false} SentPrefix(chunks: seq<seq<byte>>, k: nat)
    requires k <= |chunks|
    ensures Sent(chunks[..k]) <= Sent(chunks)
    ensures EndsInNewline(Sent(chunks[..k])) ==> Sent(chunks[..k]) == Sent(chunks)
  {
    if 0 < k {
      SentPrefix(chunks[1..], k - 1);
      PayloadShape(chunks[0]);
      assert chunks[..k][1..] == chunks[1..][..k - 1];
    }
  }

  lemma EndsLater(x: seq<byte>, y: seq<byte>)
    requires NEWLINE !in x
    ensures EndsInNewline(x + y) <==> EndsInNewline(y)
  {
    if y == [] && x != [] {
      assert x[|x| - 1] in x;
    }
  }

  lemma NoNewlineEnds(x: seq<byte>)
    requires NEWLINE !in x
    ensures !EndsInNewline(x)
  {
    assert x != [] ==> x[|x| - 1] in x;
  }

  /** The chunk whose text ends in a newline completes the stream. */
  lemma SentComplete(chunks: seq<seq<byte>>, n: nat)
    requires n < |chunks| && NEWLINE !in Concat(chunks[..n]) && EndsInNewline(Payload(chunks[n]))
    ensures Sent(chunks) == Sent(chunks[..n]) + Payload(chunks[n])
  {
    SentNext(chunks, n);
    SentQuiet(chunks[..n]);
    EndsLater(Sent(chunks[..n]), Payload(chunks[n]));
    SentPrefix(chunks, n + 1);
  }

  /** Chunking independence, with its exact condition: the loop sends the stream's
      prefix through its first newline, however it was cut into chunks, if and
      only if that prefix holds no NUL byte. */
  lemma ChunkingIndependentIff(chunks: seq<seq<byte>>)
    ensures Sent(chunks) == UpToNewline(Concat(chunks)) <==> NUL !in UpToNewline(Concat(chunks))
  {
    SentSize(chunks);
  }

  /** A NUL loses the rest of its chunk: the packet consisting of a NUL and a newline
      reaches the device without its NUL, or not at all, depending on how it is cut. */
  lemma NulLosesNewline()
    ensures UpToNewline([NUL, NEWLINE]) == [NUL, NEWLINE]
    ensures Sent([[NUL, NEWLINE]]) == [] && Sent([[NUL], [NEWLINE]]) == [NEWLINE]
  {
    assert [[NUL], [NEWLINE]][1..] == [[NEWLINE]];
    assert CString([NEWLINE]) == [NEWLINE] + CString([NEWLINE][1..]);
    assert Payload([NEWLINE]) == [NEWLINE] && Payload([NUL]) == [];
  }

  // ---- Seek commands ---------------------------------------------------------------

  /** "AESDCHAR_IOCSEEKTO:" */
  const TOKEN: seq<byte> := [65, 69, 83, 68, 67, 72, 65, 82, 95, 73, 79, 67, 83, 69, 69, 75, 84, 79, 58]

  /** strstr finds the token. */
  predicate HasToken(s: seq<byte>) {
    TOKEN <= s || (s != [] && HasToken(s[1..]))
  }

  lemma {:induction false} ShortNoToken(s: seq<byte>)
    requires |s| < |TOKEN|
    ensures !HasToken(s)
  {
    if s != [] {
      ShortNoToken(s[1..]);
    }
  }

  lemma OneByte(b: byte)
    requires b != NUL
    ensures Payload([b]) == [b]
  {
    assert [b][1..] == [];
    assert UpToNewline([b]) == [b] && CString([b]) == [b] + CString([]);
  }

  lemma TwoBytes(b: byte)
    requires b != NUL && b != NEWLINE
    ensures Payload([b, NEWLINE]) == [b, NEWLINE]
  {
    assert [b, NEWLINE][1..] == [NEWLINE] && [NEWLINE][1..] == [];
    assert UpToNewline([b, NEWLINE]) == [b] + [NEWLINE] == [b, NEWLINE];
    assert CString([NEWLINE]) == [NEWLINE] + CString([]);
    assert CString([b, NEWLINE]) == [b] + CString([NEWLINE]);
  }

  lemma {:induction false} TokenFound(s: seq<byte>, i: nat)
    requires i <= |s| && TOKEN <= s[i..]
    ensures HasToken(s)
  {
    if i == 0 {
      assert s[0..] == s;
    } else {
      assert s[1..][i - 1..] == s[i..];
      TokenFound(s[1..], i - 1);
    }
  }

  lemma {:induction false} TokenPlace(s: seq<byte>) returns (i: nat)
    requires HasToken(s)
    ensures i <= |s| && TOKEN <= s[i..]
  {
    i := 0;
    if TOKEN <= s {
      assert s[0..] == s;
    } else {
      i := TokenPlace(s[1..]);
      assert s[1..][i..] == s[i + 1..];
      i := i + 1;
    }
  }

  /** The search finds the token if and only if it stands somewhere in the text. */
  lemma HasTokenIff(s: seq<byte>)
    ensures HasToken(s) <==> exists i :: 0 <= i <= |s| && TOKEN <= s[i..]
  {
    if HasToken(s) {
      var i := TokenPlace(s);
      assert TOKEN <= s[i..];
    }
    forall i: nat | i <= |s| && TOKEN <= s[i..]
      ensures HasToken(s)
    {
      TokenFound(s, i);
    }
  }

  lemma TokenInside(s: seq<byte>, b: byte)
    requires HasToken(s) && b in TOKEN
    ensures b in s
  {
    var i := TokenPlace(s);
    var k :| 0 <= k < |TOKEN| && TOKEN[k] == b;
    assert s[i..][k] == TOKEN[k];
    assert s[i + k] == b;
  }

  /** So a text that lacks one of the token's bytes is data, */
  lemma NoTokenWithout(s: seq<byte>, b: byte)
    requires b in TOKEN && b !in s
    ensures !HasToken(s)
  {
    if HasToken(s) {
      TokenInside(s, b);
    }
  }

  /** and a token behind other text is found. */
  lemma TokenBehind(a: seq<byte>, b: seq<byte>)
    ensures HasToken(a + TOKEN + b)
  {
    assert (a + TOKEN + b)[|a|..] == TOKEN + b;
    TokenFound(a + TOKEN + b, |a|);
  }

  /** A line without NUL byte that lacks one of the token's bytes is written. */
  lemma PlainLineWritten(line: seq<byte>, b: byte)
    requires NUL !in line && NEWLINE !in line && b in TOKEN && b !in line
    ensures !Seeks([line + [NEWLINE]]) && Written([line + [NEWLINE]]) == line + [NEWLINE]
  {
    LinePayload(line);
    assert NEWLINE !in TOKEN;
    NoTokenWithout(line + [NEWLINE], b);
    OneChunk(line + [NEWLINE], HasToken(Payload(line + [NEWLINE])));
  }

  lemma LinePayload(line: seq<byte>)
    requires NUL !in line && NEWLINE !in line
    ensures Payload(line + [NEWLINE]) == line + [NEWLINE]
  {
    UpToNewlineAppend(line, [NEWLINE]);
    CStringShape(line + [NEWLINE]);
  }

  /** A whole packet in one chunk. */
  lemma OneChunk(chunk: seq<byte>, token: bool)
    requires NEWLINE in chunk && token == HasToken(Payload(chunk))
    ensures Seeks([chunk]) <==> token
    ensures Written([chunk]) == if token then [] else Payload(chunk)
  {
    var chunks: seq<seq<byte>> := [chunk];
    assert chunks[1..] == [] && chunks[..1] == chunks;
    FirstTokenSnoc([], chunk, token);
    assert [] + [chunk] == chunks;
    SentSnoc([], chunk);
  }

  /** A chunk that starts with the token and has no NUL byte. */
  lemma TokenChunk(rest: seq<byte>)
    requires NUL !in rest
    ensures HasToken(Payload(TOKEN + rest)) && (NEWLINE in TOKEN + rest <==> NEWLINE in rest)
  {
    assert NEWLINE !in TOKEN && NUL !in TOKEN;
    UpToNewlineAppend(TOKEN, rest);
    UpToNewlineShape(rest);
    CStringShape(TOKEN + UpToNewline(rest));
    assert Payload(TOKEN + rest) == TOKEN + UpToNewline(rest);
  }

  /** The number of chunks before the first one with a seek command. */
  function FirstToken(chunks: seq<seq<byte>>): (r: nat)
    ensures r <= |chunks|
  {
    if chunks == [] || HasToken(Payload(chunks[0])) then 0 else 1 + FirstToken(chunks[1..])
  }

  lemma {:induction false} FirstTokenSnoc(front: seq<seq<byte>>, chunk: seq<byte>, token: bool)
    requires token == HasToken(Payload(chunk))
    ensures FirstToken(front + [chunk])
         == if FirstToken(front) < |front| || token then FirstToken(front) else |front| + 1
  {
    if front == [] {
      assert [chunk][1..] == [];
    } else {
      FirstTokenSnoc(front[1..], chunk, token);
      assert (front + [chunk])[1..] == front[1..] + [chunk];
    }
  }

  lemma {:induction false} FirstTokenGrows(chunks: seq<seq<byte>>, k: nat)
    requires k <= |chunks|
    ensures FirstToken(chunks[..k]) <= FirstToken(chunks)
  {
    if 0 < k {
      FirstTokenGrows(chunks[1..], k - 1);
      assert chunks[..k][1..] == chunks[1..][..k - 1];
    }
  }

  /** How many chunks the loop receives: through the first one with a newline. */
  function Stops(chunks: seq<seq<byte>>): (r: nat)
    ensures r <= |chunks|
  {
    if chunks == [] then 0 else if NEWLINE in chunks[0] then 1 else 1 + Stops(chunks[1..])
  }

  lemma {:induction false} StopsBeyond(chunks: seq<seq<byte>>, n: nat)
    requires n < |chunks| && NEWLINE !in Concat(chunks[..n])
    ensures n < Stops(chunks) && (NEWLINE in chunks[n] ==> Stops(chunks) == n + 1)
  {
    if 0 < n {
      assert chunks[..n][1..] == chunks[1..][..n - 1];
      assert NEWLINE !in chunks[0] && NEWLINE !in Concat(chunks[1..][..n - 1]);
      StopsBeyond(chunks[1..], n - 1);
    }
  }

  lemma {:induction false} StopsNever(chunks: seq<seq<byte>>)
    requires NEWLINE !in Concat(chunks)
    ensures Stops(chunks) == |chunks|
  {
    if chunks != [] {
      assert NEWLINE !in chunks[0] && NEWLINE !in Concat(chunks[1..]);
      StopsNever(chunks[1..]);
    }
  }

  lemma {:induction false} BeforeStop(chunks: seq<seq<byte>>, k: nat)
    requires k < Stops(chunks)
    ensures NEWLINE !in Concat(chunks[..k])
  {
    if 0 < k {
      BeforeStop(chunks[1..], k - 1);
      assert chunks[..k][1..] == chunks[1..][..k - 1];
    }
  }

  lemma {:induction false} SentStops(chunks: seq<seq<byte>>)
    ensures Sent(chunks[..Stops(chunks)]) == Sent(chunks)
  {
    if chunks != [] {
      if NEWLINE !in chunks[0] {
        SentStops(chunks[1..]);
        assert chunks[..Stops(chunks)][1..] == chunks[1..][..Stops(chunks[1..])];
      }
    }
  }

  /** A seek command is received before the loop stops. */
  predicate Seeks(chunks: seq<seq<byte>>) {
    FirstToken(chunks[..Stops(chunks)]) < Stops(chunks)
  }

  /** What a connection puts on the device: what is sent of the chunks received before
      its first seek command. */
  function Written(chunks: seq<seq<byte>>): seq<byte> {
    Sent(chunks[..FirstToken(chunks[..Stops(chunks)])])
  }

  /** Empty to a C string function. */
  predicate Mute(chunk: seq<byte>) {
    chunk == [] || chunk[0] == NUL
  }

  predicate AllMute(chunks: seq<seq<byte>>) {
    chunks == [] || (Mute(chunks[0]) && AllMute(chunks[1..]))
  }

  lemma MutePayload(chunk: seq<byte>)
    ensures Payload(chunk) == [] <==> Mute(chunk)
  {
    if chunk != [] {
      UpToNewlineShape(chunk);
      assert UpToNewline(chunk)[0] == chunk[0];
    }
  }

  /** Nothing is sent exactly when no chunk received has a text. */
  lemma {:induction false} SentEmptyIff(chunks: seq<seq<byte>>, k: nat)
    requires k <= Stops(chunks)
    ensures Sent(chunks[..k]) == [] <==> AllMute(chunks[..k])
  {
    if 0 < k {
      assert chunks[..k][1..] == chunks[1..][..k - 1];
      MutePayload(chunks[0]);
      if NEWLINE in chunks[0] {
        assert chunks[..1][1..] == [];
      } else {
        SentEmptyIff(chunks[1..], k - 1);
      }
    }
  }

  /** A connection writes nothing exactly when no chunk before its first seek command, or
      through its first newline, has a text. */
  lemma WrittenEmptyIff(chunks: seq<seq<byte>>)
    ensures Written(chunks) == [] <==> AllMute(chunks[..FirstToken(chunks[..Stops(chunks)])])
  {
    SentEmptyIff(chunks, FirstToken(chunks[..Stops(chunks)]));
  }

  /** A connection that seeks has put no newline on the device; one that does not has put
      there all that is sent of its stream. */
  lemma WrittenShape(chunks: seq<seq<byte>>)
    ensures Seeks(chunks) ==> NEWLINE !in Written(chunks)
    ensures !Seeks(chunks) ==> Written(chunks) == Sent(chunks)
  {
    WrittenCases(chunks, Stops(chunks), FirstToken(chunks[..Stops(chunks)]));
  }

  lemma WrittenCases(chunks: seq<seq<byte>>, n: nat, k: nat)
    requires n == Stops(chunks) && k <= n
    ensures k < n ==> NEWLINE !in Sent(chunks[..k])
    ensures k == n ==> Sent(chunks[..k]) == Sent(chunks)
  {
    if k < n {
      SentBefore(chunks, k);
    } else {
      SentStops(chunks);
    }
  }

  lemma SentBefore(chunks: seq<seq<byte>>, k: nat)
    requires k < Stops(chunks)
    ensures NEWLINE !in Sent(chunks[..k])
  {
    BeforeStop(chunks, k);
    SentQuiet(chunks[..k]);
  }

  // ---- Cutting a payload into writes --------------------------------------------------

  /** However stdio cuts a payload whose only newline is at its end, only the last
      piece ends in a newline. */
  lemma OnlyLastEnds(frags: seq<seq<byte>>, j: nat)
    requires j < |frags| - 1
    requires forall i :: 0 <= i < |frags| ==> frags[i] != []
    requires NewlineLast(Concat(frags))
    ensures !EndsInNewline(frags[j])
  {
    var before, after := Concat(frags[..j]), Concat(frags[j + 1..]);
    assert frags == frags[..j] + frags[j..];
    ConcatAppend(frags[..j], frags[j..]);
    assert frags[j..][1..] == frags[j + 1..];
    assert after == frags[j + 1] + Concat(frags[j + 1..][1..]);
    InnerByte(before, frags[j], after);
  }

  lemma InnerByte(before: seq<byte>, middle: seq<byte>, after: seq<byte>)
    requires middle != [] && after != [] && NewlineLast(before + (middle + after))
    ensures middle[|middle| - 1] != NEWLINE
  {
    assert (before + (middle + after))[|before| + |middle| - 1] == middle[|middle| - 1];
  }
}
