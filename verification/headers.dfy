/**
 * Locating a header in the raw message bytes, and the byte span of its value
 * that the splicer replaces.
 */
module Headers {
  import opened Common
  import opened Search
  import opened Addresses
  import opened MailParse

  /** The blank line that ends the header block, in its CRLF and LF forms. */
  const CrlfCrlf: Bytes := [CR, LF, CR, LF]
  const LfLf: Bytes := [LF, LF]

  /** The three patterns searched for together: the header needle first. */
  function Needles(header: Bytes): seq<Bytes>
  {
    [header, CrlfCrlf, LfLf]
  }

  /**
   * The locator. `header` is the header name prefixed with a newline. The
   * result is the start of the needle's match plus two, present only when the
   * needle is the first of the three patterns the search reports.
   */
  function GetHeaderIdx(contents: Bytes, header: Bytes): (r: Option<nat>)
    ensures r.Some? ==> 2 <= r.value && EndsAt(contents, header, r.value - 2 + |header|)
    ensures r.Some? && |header| >= 1 && header[0] == LF ==> contents[r.value - 2] == LF
    ensures r.Some? && |header| >= 2 ==> r.value <= |contents|
  {
    match FirstMatch(contents, Needles(header))
    case None => None
    case Some(m) => if m.pattern != 0 then None else Some(m.start + 2)
  }

  /**
   * The locator answers `i` exactly when the needle ends at `i - 2 + |header|`,
   * no occurrence of any of the three patterns ends earlier, and no longer
   * blank-line pattern ends at the same byte.
   */
  lemma GetHeaderIdxCharacterised(c: Bytes, h: Bytes, i: nat)
    ensures GetHeaderIdx(c, h) == Some(i) <==>
      2 <= i && EndsAt(c, h, i - 2 + |h|)
      && (forall k, e: nat :: 0 <= k < 3 && e < i - 2 + |h| ==> !EndsAt(c, Needles(h)[k], e))
      && (forall k :: 1 <= k < 3 && EndsAt(c, Needles(h)[k], i - 2 + |h|) ==> |Needles(h)[k]| <= |h|)
  {
  }

  /** A located header never ends after the end of a blank line: headers in the body are never found. */
  lemma LocatedBeforeBlankLine(c: Bytes, h: Bytes, e: nat)
    requires EndsAt(c, LfLf, e) || EndsAt(c, CrlfCrlf, e)
    ensures GetHeaderIdx(c, h).Some? ==> GetHeaderIdx(c, h).value - 2 + |h| <= e
  {
    if GetHeaderIdx(c, h).Some? {
      var i := GetHeaderIdx(c, h).value;
      GetHeaderIdxCharacterised(c, h, i);
      assert EndsAt(c, Needles(h)[1], e) || EndsAt(c, Needles(h)[2], e);
    }
  }

  /** When a blank line ends before every occurrence of the needle, the header is not found. */
  lemma BlankLineHidesHeader(c: Bytes, h: Bytes, e: nat)
    requires EndsAt(c, LfLf, e) || EndsAt(c, CrlfCrlf, e)
    requires forall e': nat :: EndsAt(c, h, e') ==> e < e'
    ensures GetHeaderIdx(c, h).None?
  {
    if GetHeaderIdx(c, h).Some? {
      LocatedBeforeBlankLine(c, h, e);
    }
  }

  /**
   * With an empty header name the needle is a lone newline, and the locator can
   * answer one past the end of the buffer: `"a\n"` gives 3.
   */
  lemma EmptyNameIndexPastEnd()
    ensures GetHeaderIdx([97, LF], [LF]) == Some(3)
  {
    var c: Bytes := [97, LF];
    var n := Needles([LF]);
    forall k, e: nat | 0 <= k < 3 && e < 2 ensures !EndsAt(c, n[k], e) {
      if k == 0 && e == 1 {
        assert Lower(c[0]) != Lower(n[0][0]);
      }
    }
    assert !EndsAt(c, n[2], 2) by {
      assert Lower(c[0]) != Lower(n[2][0]);
    }
    GetHeaderIdxCharacterised(c, [LF], 3);
  }

  /** A needle the getters pass: a newline followed by at least one byte of the name. */
  predicate IsHeaderNeedle(needle: Bytes)
  {
    |needle| >= 2 && needle[0] == LF
  }

  /** `get_header_raw`: the parse of the bytes from the located index on. */
  function GetHeaderRaw(p: MailParser, c: Bytes, needle: Bytes): (r: Option<MailHeader>)
    requires IsHeaderNeedle(needle)
    ensures GetHeaderIdx(c, needle).None? ==> r.None?
    ensures r.Some? ==> GetHeaderIdx(c, needle).Some? && p.parseHeader(c[GetHeaderIdx(c, needle).value..]) == r
  {
    match GetHeaderIdx(c, needle)
    case None => None
    case Some(idx) => p.parseHeader(c[idx..])
  }

  /** A header's value as an address list; the empty list when it is missing or does not parse. */
  function HeaderAddrs(p: MailParser, c: Bytes, needle: Bytes): (r: AddrList)
    requires IsHeaderNeedle(needle)
    ensures GetHeaderRaw(p, c, needle).None? ==> r == []
    ensures r != [] ==> GetHeaderRaw(p, c, needle).Some? && p.addrParseHeader(GetHeaderRaw(p, c, needle).value) == Some(r)
  {
    match GetHeaderRaw(p, c, needle)
    case None => []
    case Some(h) =>
      match p.addrParseHeader(h)
      case None => []
      case Some(l) => l
  }

  /** A header's decoded value; empty when it is missing. */
  function HeaderValue(p: MailParser, c: Bytes, needle: Bytes): (r: Bytes)
    requires IsHeaderNeedle(needle)
    ensures GetHeaderRaw(p, c, needle).None? ==> r == []
    ensures r != [] ==> GetHeaderRaw(p, c, needle).Some? && p.getValue(GetHeaderRaw(p, c, needle).value) == r
  {
    match GetHeaderRaw(p, c, needle)
    case None => []
    case Some(h) => p.getValue(h)
  }

  /**
   * The positive partner of `HeaderInBodyReadsEmpty`: a located header whose
   * bytes from the located index parse is read as that parse, by all three readers.
   */
  lemma HeaderFound(p: MailParser, c: Bytes, needle: Bytes, i: nat, h: MailHeader)
    requires IsHeaderNeedle(needle)
    requires GetHeaderIdx(c, needle) == Some(i)
    requires p.parseHeader(c[i..]) == Some(h)
    ensures GetHeaderRaw(p, c, needle) == Some(h)
    ensures HeaderValue(p, c, needle) == p.getValue(h)
    ensures p.addrParseHeader(h).Some? ==> HeaderAddrs(p, c, needle) == p.addrParseHeader(h).value
    ensures p.addrParseHeader(h).None? ==> HeaderAddrs(p, c, needle) == []
  {
  }

  /** A header that occurs only in the body reads as missing: no raw header, no addresses, an empty value. */
  lemma HeaderInBodyReadsEmpty(p: MailParser, c: Bytes, needle: Bytes, e: nat)
    requires IsHeaderNeedle(needle)
    requires EndsAt(c, LfLf, e) || EndsAt(c, CrlfCrlf, e)
    requires forall e': nat :: EndsAt(c, needle, e') ==> e < e'
    ensures GetHeaderRaw(p, c, needle).None?
    ensures HeaderAddrs(p, c, needle) == [] && HeaderValue(p, c, needle) == []
  {
    BlankLineHidesHeader(c, needle, e);
  }

  /**
   * A header is never found on the first line: when no newline occurs before
   * offset `k`, a located name starts after `k`.
   */
  lemma HeaderNeverOnFirstLine(c: Bytes, name: Bytes, k: nat)
    requires forall j :: 0 <= j < k && j < |c| ==> c[j] != LF
    ensures GetHeaderIdx(c, [LF] + name).Some? ==> GetHeaderIdx(c, [LF] + name).value >= k + 2
  {
  }

  /** A byte range `[start, end)` of the buffer. */
  datatype Span = Span(start: nat, end: nat)

  /**
   * The bytes of header `name`'s value that the splicer replaces: the first
   * occurrence of the parsed raw value at or after the located index. A located
   * index past the end of the buffer counts as not located.
   */
  function ValueSpan(p: MailParser, c: Bytes, name: Bytes): (r: Option<Span>)
    requires p.Sound()
    ensures r.Some? ==> r.value.start <= r.value.end <= |c|
    ensures r.None? <==>
      || GetHeaderIdx(c, [LF] + name).None?
      || GetHeaderIdx(c, [LF] + name).value > |c|
      || p.parseHeader(c[GetHeaderIdx(c, [LF] + name).value..]).None?
  {
    match GetHeaderIdx(c, [LF] + name)
    case None => None
    case Some(idx) =>
      if idx > |c| then None
      else
        match p.parseHeader(c[idx..])
        case None => None
        case Some(h) =>
          var off := Find(c[idx..], h.valueRaw).value;
          Some(Span(idx + off, idx + off + |h.valueRaw|))
  }

  /**
   * When the header is located and parses, its value span holds the parsed raw
   * value and is its first occurrence at or after the located index (which may
   * lie inside the header name when the value is short).
   */
  lemma ValueSpanIsFirstOccurrence(p: MailParser, c: Bytes, name: Bytes, idx: nat, h: MailHeader)
    requires p.Sound()
    requires GetHeaderIdx(c, [LF] + name) == Some(idx) && idx <= |c| && p.parseHeader(c[idx..]) == Some(h)
    ensures ValueSpan(p, c, name).Some?
    ensures var sp := ValueSpan(p, c, name).value;
      && idx <= sp.start
      && sp.end == sp.start + |h.valueRaw|
      && c[sp.start..sp.end] == h.valueRaw
      && forall j: nat :: idx <= j < sp.start ==> !OccursAt(c, j, h.valueRaw)
  {
    var tail := c[idx..];
    var v := h.valueRaw;
    var off := Find(tail, v).value;
    assert ValueSpan(p, c, name) == Some(Span(idx + off, idx + off + |v|));
    OccursInSuffix(c, idx, idx + off, v);
    forall j: nat | idx <= j < idx + off ensures !OccursAt(c, j, v) {
      OccursInSuffix(c, idx, j, v);
    }
  }

  /** An occurrence in the suffix from `idx` is an occurrence in the whole buffer, shifted by `idx`. */
  lemma OccursInSuffix(c: Bytes, idx: nat, j: nat, v: Bytes)
    requires idx <= j && idx <= |c|
    ensures OccursAt(c[idx..], j - idx, v) <==> OccursAt(c, j, v)
  {
    if j + |v| <= |c| {
      assert c[idx..][j - idx..j - idx + |v|] == c[j..j + |v|];
    }
  }

  /**
   * The buffer after `set_header(name, s)`: the value span replaced by `s`, or
   * the buffer unchanged when there is no span.
   */
  function SetHeaderResult(p: MailParser, c: Bytes, name: Bytes, s: Bytes): (r: Bytes)
    requires p.Sound()
    ensures ValueSpan(p, c, name).None? ==> r == c
    ensures ValueSpan(p, c, name).Some? ==>
      var sp := ValueSpan(p, c, name).value;
      && |r| == |c| + |s| - (sp.end - sp.start)
      && r[..sp.start] == c[..sp.start]
      && r[sp.start..sp.start + |s|] == s
      && r[sp.start + |s|..] == c[sp.end..]
  {
    match ValueSpan(p, c, name)
    case None => c
    case Some(sp) => c[..sp.start] + s + c[sp.end..]
  }

  /** Whether `pat` ends at `e` depends only on the bytes before `e`. */
  lemma EndsAtSamePrefix(c1: Bytes, c2: Bytes, k: nat, pat: Bytes, e: nat)
    requires k <= |c1| && k <= |c2| && c1[..k] == c2[..k] && e <= k
    ensures EndsAt(c1, pat, e) <==> EndsAt(c2, pat, e)
  {
  }

  /**
   * When the value span starts after the matched needle, rewriting the value
   * keeps the header where it was: the locator gives the same index on the
   * new buffer, and the span now holds the new value.
   */
  lemma SetHeaderKeepsLocation(p: MailParser, c: Bytes, name: Bytes, s: Bytes)
    requires p.Sound()
    requires ValueSpan(p, c, name).Some?
    requires GetHeaderIdx(c, [LF] + name).value - 1 + |name| <= ValueSpan(p, c, name).value.start
    ensures GetHeaderIdx(SetHeaderResult(p, c, name, s), [LF] + name) == GetHeaderIdx(c, [LF] + name)
    ensures var sp := ValueSpan(p, c, name).value;
      var r := SetHeaderResult(p, c, name, s);
      sp.start + |s| <= |r| && r[sp.start..sp.start + |s|] == s
  {
    var h := [LF] + name;
    var i := GetHeaderIdx(c, h).value;
    var sp := ValueSpan(p, c, name).value;
    var r := SetHeaderResult(p, c, name, s);
    var end := i - 2 + |h|;
    GetHeaderIdxCharacterised(c, h, i);
    forall k, e: nat | 0 <= k < 3 && e <= end
      ensures EndsAt(c, Needles(h)[k], e) <==> EndsAt(r, Needles(h)[k], e)
    {
      EndsAtSamePrefix(c, r, sp.start, Needles(h)[k], e);
    }
    GetHeaderIdxCharacterised(r, h, i);
  }

  /** A parser for one-letter headers `k: v`: the key is the first byte, the raw value the fourth. */
  function OneLetterParser(): (p: MailParser)
    ensures p.Sound()
  {
    var p := MailParser(
      (b: Bytes) => if |b| >= 4 then Some(MailHeader(b[..1], b[3..4])) else None,
      (h: MailHeader) => None,
      (h: MailHeader) => h.valueRaw,
      (l: AddrList) => []);
    assert p.Sound() by {
      forall b: Bytes | p.parseHeader(b).Some? ensures Occurs(b, p.parseHeader(b).value.valueRaw) {
        assert OccursAt(b, 3, b[3..4]);
      }
    }
    p
  }

  /** The mail of the counterexample below, `"x\nTo: o\n\n"`, and the rewritten name `to`. */
  const HitNameMail: Bytes := [120, LF, 84, 111, 58, 32, 111, LF, LF]
  const HitNameName: Bytes := [116, 111]

  /**
   * In any buffer that starts with `"x\nTo"`, the header "to" is located at
   * index 3, the `o` of `To`, whatever follows.
   */
  lemma HitNameLocated(c: Bytes)
    requires |c| >= 4 && c[..4] == [120, LF, 84, 111]
    ensures GetHeaderIdx(c, [LF] + HitNameName) == Some(3)
  {
    assert c[0] == 120 && c[1] == LF && c[2] == 84 && c[3] == 111 by {
      assert c[..4][0] == c[0] && c[..4][1] == c[1] && c[..4][2] == c[2] && c[..4][3] == c[3];
    }
    var h := [LF] + HitNameName;
    var n := Needles(h);
    forall k, e: nat | 0 <= k < 3 && e < 4 ensures !EndsAt(c, n[k], e) {
      if k == 0 && e == 3 {
        assert Lower(c[0]) != Lower(n[0][0]);
      } else if k == 2 && e == 2 {
        assert Lower(c[0]) != Lower(n[2][0]);
      } else if k == 2 && e == 3 {
        assert Lower(c[2]) != Lower(n[2][1]);
      }
    }
    assert !EndsAt(c, n[1], 4) by {
      assert Lower(c[0]) != Lower(n[1][0]);
    }
    assert !EndsAt(c, n[2], 4) by {
      assert Lower(c[2]) != Lower(n[2][0]);
    }
    assert EndsAt(c, h, 4);
    GetHeaderIdxCharacterised(c, h, 3);
  }

  /**
   * The value span can start inside the header name: the value `o` of
   * `"x\nTo: o\n\n"` first occurs at the `o` of `To`, so rewriting "to" to
   * `abc` gives `"x\nTabc: o\n\n"`.
   */
  lemma SetHeaderCanHitName()
    ensures ValueSpan(OneLetterParser(), HitNameMail, HitNameName) == Some(Span(3, 4))
    ensures SetHeaderResult(OneLetterParser(), HitNameMail, HitNameName, [97, 98, 99])
      == [120, LF, 84, 97, 98, 99, 58, 32, 111, LF, LF]
  {
    var c := HitNameMail;
    HitNameLocated(c);
    assert c[3..][3..4] == [111];
    assert OccursAt(c[3..], 0, [111]);
  }

  /** After that rewrite the header "to" is no longer found. */
  lemma RewrittenNameNotFound()
    ensures GetHeaderIdx([120, LF, 84, 97, 98, 99, 58, 32, 111, LF, LF], [LF] + HitNameName).None?
  {
    var r: Bytes := [120, LF, 84, 97, 98, 99, 58, 32, 111, LF, LF];
    var h := [LF] + HitNameName;
    forall e: nat ensures !EndsAt(r, h, e) {
      if e == 4 {
        assert Lower(r[3]) != Lower(h[2]);
      } else if 3 <= e <= |r| {
        assert Lower(r[e - 3]) != Lower(h[0]);
      }
    }
  }
}
