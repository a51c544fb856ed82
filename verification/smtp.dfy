/**
 * The rejection error of a filter step: an SMTP reply code and its text,
 * rendered as the reply line of section 4.2 of RFC 5321 ("code SP text").
 */
module Smtp {
  import opened Common

  /** Rust's `u16`. */
  type u16 = x: int | 0 <= x < 0x1_0000

  datatype Error = Error(status: u16, message: string)

  /** The standard refusal for an unauthenticated client. */
  function Unauthorized(): (e: Error)
    ensures Render(e) == "530 5.7.0 Authentication required"
  {
    RenderUnauthorized();
    Error(530, "5.7.0 Authentication required")
  }

  /** The standard refusal's reply line, step by step. */
  lemma RenderUnauthorized()
    ensures Render(Error(530, "5.7.0 Authentication required")) == "530 5.7.0 Authentication required"
  {
    Decimal530();
    var m := "5.7.0 Authentication required";
    RenderUnfold(Error(530, m));
    LiteralLine();
  }

  /** Unfolds `Render` alone, so that the proof above need not instantiate its contract. */
  lemma RenderUnfold(e: Error)
    ensures Render(e) == Decimal(e.status) + " " + e.message
  {
  }

  /** The two parts of the refusal line, joined. */
  lemma LiteralLine()
    ensures "530" + " " + "5.7.0 Authentication required" == "530 5.7.0 Authentication required"
  {
  }

  /** The digits of 530. */
  lemma Decimal530()
    ensures Decimal(530) == "530"
  {
  }

  predicate IsDigit(c: char)
  {
    '0' <= c <= '9'
  }

  predicate AllDigits(s: string)
  {
    forall i :: 0 <= i < |s| ==> IsDigit(s[i])
  }

  /** The decimal digits of `n` as `Display` writes an unsigned integer: no sign, no leading zero. */
  function Decimal(n: nat): (s: string)
    ensures |s| >= 1 && AllDigits(s)
    ensures |s| > 1 ==> s[0] != '0'
    ensures n < 10 <==> |s| == 1
  {
    if n < 10 then [('0' as int + n) as char]
    else Decimal(n / 10) + [('0' as int + n % 10) as char]
  }

  /** The value of a string of decimal digits. */
  function ParseDecimal(s: string): nat
    requires AllDigits(s)
  {
    if s == [] then 0 else ParseDecimal(s[..|s| - 1]) * 10 + (s[|s| - 1] as int - '0' as int)
  }

  /** Reading the digits back gives the number. */
  lemma {:induction false} DecimalRoundTrip(n: nat)
    ensures ParseDecimal(Decimal(n)) == n
  {
    if n >= 10 {
      var s := Decimal(n);
      assert s[..|s| - 1] == Decimal(n / 10);
      DecimalRoundTrip(n / 10);
    }
  }

  /** The rendered reply: `"<status> <message>"`. */
  function Render(e: Error): (r: string)
    ensures |r| > |e.message| + 1
    ensures AllDigits(r[..|r| - |e.message| - 1])
    ensures r[|r| - |e.message| - 1] == ' ' && r[|r| - |e.message|..] == e.message
  {
    Decimal(e.status) + " " + e.message
  }

  /** Splits a reply line at its first space into a reply code and its text. */
  function ParseReply(s: string): Option<Error>
  {
    match Find(s, " ")
    case None => None
    case Some(k) =>
      var code := s[..k];
      if k == 0 || !AllDigits(code) || ParseDecimal(code) >= 0x1_0000 then None
      else Some(Error(ParseDecimal(code), s[k + 1..]))
  }

  /** The rendered reply can be read back into the same status and message. */
  lemma ReplyRoundTrip(e: Error)
    ensures ParseReply(Render(e)) == Some(e)
  {
    var d := Decimal(e.status);
    var s := Render(e);
    assert OccursAt(s, |d|, " ");
    var k := Find(s, " ").value;
    assert s[..k] == d;
    assert s[k + 1..] == e.message;
    DecimalRoundTrip(e.status);
  }
}
