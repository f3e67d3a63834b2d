/** The few pieces of java.lang that the translator and the executor rely on:
    nullable values, the exceptions they raise or catch, ASCII case mapping,
    String.trim().isEmpty(), String.contains, Integer.toString and String.join. */
module JavaLang {

  /** A Java reference that may be null. */
  datatype Option<T> = None | Some(value: T)

  /** The exceptions raised or caught by the modelled code. */
  datatype Exception =
    | NullPointerException
    | IOException(detail: string)
    | InterruptedException(detail: string)
    | CommandExecutionException(detail: string)

  /** getMessage() of an exception, as string concatenation renders it
      (a NullPointerException is taken to carry no message). */
  function MessageOf(e: Exception): string {
    match e
    case NullPointerException => "null"
    case IOException(d) => d
    case InterruptedException(d) => d
    case CommandExecutionException(d) => d
  }

  /** A computation that either returns a value or throws. */
  datatype Result<T> = Ok(value: T) | Threw(exception: Exception)

  // ---------------------------------------------------------------------
  // Case mapping (ASCII letters; see README for what is left out)

  function LowerChar(c: char): char {
    if 'A' <= c <= 'Z' then (c as int + 32) as char else c
  }

  function UpperChar(c: char): char {
    if 'a' <= c <= 'z' then (c as int - 32) as char else c
  }

  /** String.toLowerCase(): no capital letter is left, and every position still
      reads the same once upper-cased. */
  function ToLower(s: string): (r: string)
    ensures |r| == |s|
    ensures forall i :: 0 <= i < |s| ==> !('A' <= r[i] <= 'Z') && UpperChar(r[i]) == UpperChar(s[i])
  {
    seq(|s|, i requires 0 <= i < |s| => LowerChar(s[i]))
  }

  /** String.toUpperCase(): no small letter is left, and every position still
      reads the same once lower-cased. */
  function ToUpper(s: string): (r: string)
    ensures |r| == |s|
    ensures forall i :: 0 <= i < |s| ==> !('a' <= r[i] <= 'z') && LowerChar(r[i]) == LowerChar(s[i])
  {
    seq(|s|, i requires 0 <= i < |s| => UpperChar(s[i]))
  }

  /** Lower-casing forgets an earlier upper-casing and the other way round, and
      each mapping is idempotent. */
  lemma CaseMappingsAgree(s: string)
    ensures ToLower(ToUpper(s)) == ToLower(s) && ToUpper(ToLower(s)) == ToUpper(s)
    ensures ToLower(ToLower(s)) == ToLower(s) && ToUpper(ToUpper(s)) == ToUpper(s)
  {
  }

  /** String.equalsIgnoreCase */
  predicate EqualsIgnoreCase(a: string, b: string) {
    ToLower(a) == ToLower(b)
  }

  // ---------------------------------------------------------------------
  // Searching

  /** s.trim().isEmpty(): trim() drops every character up to U+0020 at both ends,
      so the result is empty exactly when no character is above U+0020. */
  predicate IsBlank(s: string) {
    forall i :: 0 <= i < |s| ==> s[i] <= ' '
  }

  predicate StartsWith(s: string, t: string) {
    |t| <= |s| && s[..|t|] == t
  }

  /** t occurs in s at position i */
  predicate OccursAt(s: string, t: string, i: int) {
    0 <= i && i + |t| <= |s| && s[i..i + |t|] == t
  }

  /** String.contains: tries every start position from the left. */
  function Contains(s: string, t: string): (r: bool)
    ensures r <==> exists i :: OccursAt(s, t, i)
    decreases |s|
  {
    if StartsWith(s, t) then
      assert OccursAt(s, t, 0);
      true
    else if s == [] then
      false
    else
      var rest := Contains(s[1..], t);
      assert forall j :: OccursAt(s[1..], t, j) <==> OccursAt(s, t, j + 1);
      assert forall i :: OccursAt(s, t, i) ==> i > 0 && OccursAt(s[1..], t, i - 1);
      rest
  }

  /** A string that lacks one of t's characters does not contain t. */
  lemma MissingCharNotContained(s: string, t: string, j: int)
    requires 0 <= j < |t| && t[j] !in s
    ensures !Contains(s, t)
  {
  }

  // ---------------------------------------------------------------------
  // Integer.toString and String.join

  function DigitChar(d: nat): char
    requires d < 10
  {
    "0123456789"[d]
  }

  predicate AllDigits(s: string) {
    forall i :: 0 <= i < |s| ==> '0' <= s[i] <= '9'
  }

  /** The number a string of decimal digits denotes. */
  function DigitsValue(s: string): nat
    requires AllDigits(s)
  {
    if s == [] then 0 else DigitsValue(s[..|s| - 1]) * 10 + (s[|s| - 1] as int - '0' as int)
  }

  /** The decimal digits of n, without leading zeros. */
  function NatToString(n: nat): (r: string)
    ensures r != [] && (r[0] == '0' ==> n == 0)
    ensures AllDigits(r)
  {
    if n < 10 then [DigitChar(n)] else NatToString(n / 10) + [DigitChar(n % 10)]
  }

  /** The digits NatToString writes denote n. */
  lemma {:induction false} NatToStringDenotes(n: nat)
    ensures DigitsValue(NatToString(n)) == n
  {
    if n >= 10 {
      var init := NatToString(n / 10);
      var r := init + [DigitChar(n % 10)];
      assert r[..|r| - 1] == init;
      NatToStringDenotes(n / 10);
    }
  }

  /** Integer.toString: decimal digits, with a leading minus sign for negatives. */
  function IntToString(n: int): string {
    if n < 0 then "-" + NatToString(-n) else NatToString(n)
  }

  /** Integer.toString writes a minus sign exactly for negatives, followed by the
      digits of the magnitude, so different numbers get different texts. */
  lemma IntToStringDenotes(n: int)
    ensures n < 0 ==> |IntToString(n)| > 1 && IntToString(n)[0] == '-'
                      && AllDigits(IntToString(n)[1..]) && DigitsValue(IntToString(n)[1..]) == -n
    ensures n >= 0 ==> AllDigits(IntToString(n)) && DigitsValue(IntToString(n)) == n
  {
    if n < 0 {
      var digits := NatToString(-n);
      assert IntToString(n) == "-" + digits;
      assert ("-" + digits)[1..] == digits;
      NatToStringDenotes(-n);
    } else {
      NatToStringDenotes(n);
    }
  }

  /** String.join(sep, parts) */
  function Join(sep: string, parts: seq<string>): string {
    if parts == [] then []
    else if |parts| == 1 then parts[0]
    else parts[0] + sep + Join(sep, parts[1..])
  }
}
