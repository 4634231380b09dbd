/** A model of the palette converter: it scans a DACPAL text dump for
    colour entries (three two-digit hex channels, each below 0x40), keeps the
    first 256 and writes them as a 768-byte VGA palette of 6-bit channels. */
module Txt2Pal {
  import opened Wrappers

  const PaletteColors: nat := 256
  const ChannelsPerColor: nat := 3
  const TokenLength: nat := 6
  const PaletteSize: nat := PaletteColors * ChannelsPerColor

  // ---------------------------------------------------------------------
  // Characters and the colour-entry pattern
  // ---------------------------------------------------------------------

  /** `str.lower()` on ASCII letters; every other character is kept. */
  function LowerChar(c: char): char {
    if 'A' <= c <= 'Z' then (c as int - 'A' as int + 'a' as int) as char else c
  }

  /** Lower-casing leaves no upper-case ASCII letter, changes nothing else,
      and keeps word characters word characters, so no `\b` boundary moves. */
  function Lower(s: string): (r: string)
    ensures |r| == |s|
    ensures forall i :: 0 <= i < |s| ==> !('A' <= r[i] <= 'Z')
    ensures forall i :: 0 <= i < |s| ==> !('A' <= s[i] <= 'Z') ==> r[i] == s[i]
    ensures forall i :: 0 <= i < |s| ==> (IsWordChar(r[i]) <==> IsWordChar(s[i]))
  {
    seq(|s|, i requires 0 <= i < |s| => LowerChar(s[i]))
  }

  /** A regular-expression word character (`\w`), on ASCII. */
  predicate IsWordChar(c: char) {
    'a' <= c <= 'z' || 'A' <= c <= 'Z' || '0' <= c <= '9' || c == '_'
  }

  /** The first digit of a channel: `[0-3]`. */
  predicate IsChannelLead(c: char) {
    '0' <= c <= '3'
  }

  /** The second digit of a channel: `[0-9a-f]`. */
  predicate IsHexDigit(c: char) {
    '0' <= c <= '9' || 'a' <= c <= 'f'
  }

  /** Six characters of the form `[0-3][0-9a-f]` three times over. */
  predicate IsColorToken(t: string) {
    && |t| == TokenLength
    && IsChannelLead(t[0]) && IsHexDigit(t[1])
    && IsChannelLead(t[2]) && IsHexDigit(t[3])
    && IsChannelLead(t[4]) && IsHexDigit(t[5])
  }

  /** The pattern `\b[0-3][0-9a-f][0-3][0-9a-f][0-3][0-9a-f]\b` matches at
      position `p` of `s`: six pattern characters with no word character
      directly before or after them. */
  predicate MatchAt(s: string, p: nat) {
    && p + TokenLength <= |s|
    && (p == 0 || !IsWordChar(s[p - 1]))
    && IsColorToken(s[p..p + TokenLength])
    && (p + TokenLength == |s| || !IsWordChar(s[p + TokenLength]))
  }

  /** A match is a whole run of word characters of length exactly six: all
      six characters are word characters and the characters around them
      are not. */
  lemma MatchIsWordRun(s: string, p: nat)
    requires MatchAt(s, p)
    ensures forall i :: p <= i < p + TokenLength ==> IsWordChar(s[i])
    ensures p == 0 || !IsWordChar(s[p - 1])
    ensures p + TokenLength == |s| || !IsWordChar(s[p + TokenLength])
  {
    forall i | p <= i < p + TokenLength ensures IsWordChar(s[i]) {
      assert s[i] == s[p..p + TokenLength][i - p];
    }
  }

  // ---------------------------------------------------------------------
  // re.findall for this pattern
  // ---------------------------------------------------------------------

  /** `re.findall` from position `p`: try the pattern at each position; after
      a match, resume at its end, otherwise at the next position. */
  function FindAll(s: string, p: nat): seq<string>
    requires p <= |s|
    decreases |s| - p
  {
    if p == |s| then []
    else if MatchAt(s, p) then [s[p..p + TokenLength]] + FindAll(s, p + TokenLength)
    else FindAll(s, p + 1)
  }

  /** Reference definition: the text at every position where the pattern
      matches, in order, without skipping over matched text. */
  function AllMatches(s: string, p: nat): seq<string>
    requires p <= |s|
    decreases |s| - p
  {
    if p == |s| then []
    else (if MatchAt(s, p) then [s[p..p + TokenLength]] else []) + AllMatches(s, p + 1)
  }

  /** Two matches never overlap: a match ends in word characters, so no
      match starts inside another. */
  lemma NoMatchInside(s: string, p: nat, q: nat)
    requires MatchAt(s, p) && p < q < p + TokenLength
    ensures !MatchAt(s, q)
  {
    assert s[q - 1] == s[p..p + TokenLength][q - 1 - p];
  }

  lemma {:induction false} NoMatchesBetween(s: string, a: nat, b: nat)
    requires a <= b <= |s|
    requires forall q :: a <= q < b ==> !MatchAt(s, q)
    ensures AllMatches(s, a) == AllMatches(s, b)
    decreases b - a
  {
    if a < b {
      assert AllMatches(s, a) == [] + AllMatches(s, a + 1);
      NoMatchesBetween(s, a + 1, b);
    }
  }

  /** Skipping past each match loses nothing: `FindAll` returns every match. */
  lemma {:induction false} FindAllIsAllMatches(s: string, p: nat)
    requires p <= |s|
    ensures FindAll(s, p) == AllMatches(s, p)
    decreases |s| - p
  {
    if p < |s| {
      if MatchAt(s, p) {
        forall q | p + 1 <= q < p + TokenLength ensures !MatchAt(s, q) {
          NoMatchInside(s, p, q);
        }
        NoMatchesBetween(s, p + 1, p + TokenLength);
        FindAllIsAllMatches(s, p + TokenLength);
        assert AllMatches(s, p) == [s[p..p + TokenLength]] + AllMatches(s, p + 1);
      } else {
        FindAllIsAllMatches(s, p + 1);
        assert AllMatches(s, p) == [] + AllMatches(s, p + 1);
      }
    }
  }

  /** Every match at or after `p` is among the matches from `p`. */
  lemma {:induction false} AllMatchesComplete(s: string, p: nat, q: nat)
    requires p <= q && MatchAt(s, q)
    ensures s[q..q + TokenLength] in AllMatches(s, p)
    decreases q - p
  {
    if p < q {
      AllMatchesComplete(s, p + 1, q);
    }
  }

  /** Everything found is a whole colour token of the text. */
  lemma {:induction false} AllMatchesSound(s: string, p: nat)
    requires p <= |s|
    ensures forall k :: 0 <= k < |AllMatches(s, p)| ==>
      IsColorToken(AllMatches(s, p)[k])
      && exists q: nat :: p <= q && MatchAt(s, q) && AllMatches(s, p)[k] == s[q..q + TokenLength]
    decreases |s| - p
  {
    if p < |s| {
      AllMatchesSound(s, p + 1);
      var head := if MatchAt(s, p) then [s[p..p + TokenLength]] else [];
      var tail := AllMatches(s, p + 1);
      forall k | 0 <= k < |head + tail|
        ensures IsColorToken((head + tail)[k])
          && exists q: nat :: p <= q && MatchAt(s, q) && (head + tail)[k] == s[q..q + TokenLength]
      {
        if k < |head| {
          assert (head + tail)[k] == s[p..p + TokenLength];
        } else {
          assert (head + tail)[k] == tail[k - |head|];
        }
      }
    }
  }

  /** The tokens found in `s`: exactly the colour tokens standing as whole
      words, in order of appearance. */
  lemma FindAllCharacterised(s: string)
    ensures forall k :: 0 <= k < |FindAll(s, 0)| ==>
      IsColorToken(FindAll(s, 0)[k])
      && exists q: nat :: MatchAt(s, q) && FindAll(s, 0)[k] == s[q..q + TokenLength]
    ensures forall q: nat :: MatchAt(s, q) ==> s[q..q + TokenLength] in FindAll(s, 0)
  {
    FindAllIsAllMatches(s, 0);
    AllMatchesSound(s, 0);
    var found := FindAll(s, 0);
    forall k | 0 <= k < |found|
      ensures IsColorToken(found[k]) && exists q: nat :: MatchAt(s, q) && found[k] == s[q..q + TokenLength]
    {
      assert IsColorToken(AllMatches(s, 0)[k]);
      var q: nat :| 0 <= q && MatchAt(s, q) && AllMatches(s, 0)[k] == s[q..q + TokenLength];
      assert found[k] == s[q..q + TokenLength];
    }
    forall q: nat | MatchAt(s, q) ensures s[q..q + TokenLength] in FindAll(s, 0) {
      AllMatchesComplete(s, 0, q);
    }
  }

  /** Matching on the lower-cased text: six characters of the dump that
      lower-case to a colour token, with no word character of the dump
      around them, are found, written in lower case (an entry such as
      `3F0A1B` counts). */
  lemma UpperCaseEntryFound(text: string, q: nat)
    requires q + TokenLength <= |text|
    requires q == 0 || !IsWordChar(text[q - 1])
    requires q + TokenLength == |text| || !IsWordChar(text[q + TokenLength])
    requires IsColorToken(Lower(text[q..q + TokenLength]))
    ensures Lower(text[q..q + TokenLength]) in FindAll(Lower(text), 0)
  {
    var low := Lower(text);
    assert low[q..q + TokenLength] == Lower(text[q..q + TokenLength]);
    assert MatchAt(low, q);
    FindAllCharacterised(low);
  }

  predicate AllColorTokens(ts: seq<string>) {
    forall k :: 0 <= k < |ts| ==> IsColorToken(ts[k])
  }

  lemma FindAllTokens(s: string)
    ensures AllColorTokens(FindAll(s, 0))
  {
    FindAllCharacterised(s);
  }

  // ---------------------------------------------------------------------
  // Hex pairs and 6-bit channels
  // ---------------------------------------------------------------------

  function HexDigitValue(c: char): (v: nat)
    requires IsHexDigit(c)
    ensures v < 16
  {
    if '0' <= c <= '9' then c as int - '0' as int else c as int - 'a' as int + 10
  }

  /** `int(pair, 16)` for two lower-case hex digits. */
  function HexPairValue(hi: char, lo: char): (v: nat)
    requires IsHexDigit(hi) && IsHexDigit(lo)
    ensures v < 0x100
  {
    HexDigitValue(hi) * 16 + HexDigitValue(lo)
  }

  /** `v & 0x3F`: for a non-negative `v` this keeps the low six bits, which
      is `v % 64`. */
  function Mask6(v: nat): (m: nat)
    ensures m < 64
  {
    v % 64
  }

  /** Both characters of each channel of a colour token are hex digits. */
  lemma ChannelDigits(t: string, c: nat)
    requires IsColorToken(t) && c < ChannelsPerColor
    ensures IsHexDigit(t[2 * c]) && IsHexDigit(t[2 * c + 1])
  {
    if c == 0 {
      assert IsChannelLead(t[0]);
    } else if c == 1 {
      assert IsChannelLead(t[2]);
    } else {
      assert IsChannelLead(t[4]);
    }
  }

  /** Channel `c` (0 red, 1 green, 2 blue) of a colour token: the pair of
      characters at `2 * c`, read as hex and masked to six bits. */
  function ChannelByte(t: string, c: nat): (b: byte)
    requires IsColorToken(t) && c < ChannelsPerColor
    ensures b < 64
  {
    ChannelDigits(t, c);
    Mask6(HexPairValue(t[2 * c], t[2 * c + 1]))
  }

  /** The three palette bytes of one colour token. */
  function ColorBytes(t: string): (b: seq<byte>)
    requires IsColorToken(t)
    ensures |b| == ChannelsPerColor
  {
    [ChannelByte(t, 0), ChannelByte(t, 1), ChannelByte(t, 2)]
  }

  /** The bytes written for `ts`, colour after colour. */
  function Palette(ts: seq<string>): (pal: seq<byte>)
    requires AllColorTokens(ts)
  {
    if ts == [] then [] else Palette(ts[..|ts| - 1]) + ColorBytes(ts[|ts| - 1])
  }

  /** Writing one more colour appends its three bytes. */
  lemma PaletteStep(ts: seq<string>, k: nat)
    requires AllColorTokens(ts) && k < |ts|
    ensures AllColorTokens(ts[..k]) && AllColorTokens(ts[..k + 1])
    ensures Palette(ts[..k + 1]) == Palette(ts[..k]) + ColorBytes(ts[k])
  {
    assert ts[..k + 1][..k] == ts[..k];
  }

  /** The palette holds three bytes per colour: byte `3k + c` is channel `c`
      of colour `k`, and every byte is a 6-bit value. */
  lemma {:induction false} PaletteLayout(ts: seq<string>)
    requires AllColorTokens(ts)
    ensures |Palette(ts)| == ChannelsPerColor * |ts|
    ensures forall k, c :: 0 <= k < |ts| && 0 <= c < ChannelsPerColor ==>
      Palette(ts)[ChannelsPerColor * k + c] == ChannelByte(ts[k], c)
    ensures forall i :: 0 <= i < |Palette(ts)| ==> Palette(ts)[i] < 64
  {
    if ts != [] {
      var front := ts[..|ts| - 1];
      PaletteLayout(front);
      var last := ColorBytes(ts[|ts| - 1]);
      assert Palette(ts) == Palette(front) + last;
      forall k, c | 0 <= k < |ts| && 0 <= c < ChannelsPerColor
        ensures Palette(ts)[ChannelsPerColor * k + c] == ChannelByte(ts[k], c)
      {
        if k < |front| {
          assert ts[k] == front[k];
        }
      }
    }
  }

  /** On a colour token the mask changes nothing: the lead digit is at most
      3, so each pair is already below 0x40. */
  lemma MaskKeepsChannels(t: string, c: nat)
    requires IsColorToken(t) && c < ChannelsPerColor
    ensures ChannelByte(t, c) == HexPairValue(t[2 * c], t[2 * c + 1])
  {
    assert HexDigitValue(t[2 * c]) <= 3;
  }

  // ---------------------------------------------------------------------
  // The inverse: writing a palette entry back as text
  // ---------------------------------------------------------------------

  function HexChar(d: nat): (c: char)
    requires d < 16
    ensures IsHexDigit(c) && HexDigitValue(c) == d
  {
    if d < 10 then ('0' as int + d) as char else ('a' as int + d - 10) as char
  }

  /** Three 6-bit channels as the six lower-case hex digits of a dump. */
  function FormatColor(b: seq<byte>): (t: string)
    requires |b| == ChannelsPerColor && forall i :: 0 <= i < |b| ==> b[i] < 64
    ensures IsColorToken(t)
  {
    [HexChar(b[0] / 16), HexChar(b[0] % 16),
     HexChar(b[1] / 16), HexChar(b[1] % 16),
     HexChar(b[2] / 16), HexChar(b[2] % 16)]
  }

  lemma HexCharOfValue(c: char)
    requires IsHexDigit(c)
    ensures HexChar(HexDigitValue(c)) == c
  {
  }

  /** Reading a colour token and formatting it back gives the token again. */
  lemma ColorRoundTrip(t: string)
    requires IsColorToken(t)
    ensures FormatColor(ColorBytes(t)) == t
  {
    var b := ColorBytes(t);
    forall c | 0 <= c < ChannelsPerColor
      ensures b[c] / 16 == HexDigitValue(t[2 * c]) && b[c] % 16 == HexDigitValue(t[2 * c + 1])
    {
      MaskKeepsChannels(t, c);
    }
    forall i | 0 <= i < TokenLength ensures FormatColor(b)[i] == t[i] {
      HexCharOfValue(t[i]);
    }
  }

  /** Formatting three 6-bit channels and reading them back gives the same
      bytes: colour tokens and channel triples correspond one to one. */
  lemma BytesRoundTrip(b: seq<byte>)
    requires |b| == ChannelsPerColor && forall i :: 0 <= i < |b| ==> b[i] < 64
    ensures ColorBytes(FormatColor(b)) == b
  {
    var t := FormatColor(b);
    forall c | 0 <= c < ChannelsPerColor ensures ColorBytes(t)[c] == b[c] {
      MaskKeepsChannels(t, c);
    }
  }

  // ---------------------------------------------------------------------
  // The converter
  // ---------------------------------------------------------------------

  lemma AppendChannel(before: seq<byte>, t: string, c: nat)
    requires IsColorToken(t) && c < ChannelsPerColor
    ensures before + ColorBytes(t)[..c] + [ChannelByte(t, c)] == before + ColorBytes(t)[..c + 1]
  {
    assert ColorBytes(t)[..c + 1] == ColorBytes(t)[..c] + [ChannelByte(t, c)];
  }

  datatype PaletteError = TooFewColors(found: nat)

  /** The body of `main` from the text on: find the tokens in the lower-cased
      text, refuse fewer than 256, and write the first 256 as channel bytes
      in the order the nested loop writes them. */
  method TextToPalette(text: string) returns (r: Result<seq<byte>, PaletteError>)
    ensures r.Err? <==> |FindAll(Lower(text), 0)| < PaletteColors
    ensures r.Err? ==> r.error == TooFewColors(|FindAll(Lower(text), 0)|)
    ensures r.Ok? ==> |r.value| == PaletteSize
                      && AllColorTokens(FindAll(Lower(text), 0)[..PaletteColors])
                      && r.value == Palette(FindAll(Lower(text), 0)[..PaletteColors])
  {
    var chunks := FindAll(Lower(text), 0);
    if |chunks| < PaletteColors {
      return Err(TooFewColors(|chunks|));
    }
    FindAllTokens(Lower(text));
    chunks := chunks[..PaletteColors];
    var out: seq<byte> := [];
    PaletteStep(chunks, 0);
    for k := 0 to PaletteColors
      invariant AllColorTokens(chunks[..k])
      invariant out == Palette(chunks[..k])
    {
      var chunk := chunks[k];
      ghost var before := out;
      for c := 0 to ChannelsPerColor
        invariant out == before + ColorBytes(chunk)[..c]
      {
        var i := 2 * c;
        ChannelDigits(chunk, c);
        var val := Mask6(HexPairValue(chunk[i], chunk[i + 1]));
        AppendChannel(before, chunk, c);
        out := out + [val];
      }
      PaletteStep(chunks, k);
    }
    assert chunks[..PaletteColors] == chunks;
    PaletteLayout(chunks);
    return Ok(out);
  }
}
