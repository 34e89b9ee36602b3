/** System-generated identifiers: a kind prefix followed by a counter value in lower-case hexadecimal. */
module Urn {
  datatype Kind = DeviceKind | ResourceKind | ServiceKind

  function Prefix(kind: Kind): string {
    match kind
    case DeviceKind => "urn:ls_device:"
    case ResourceKind => "urn:ls_resource:"
    case ServiceKind => "urn:ls_service:"
  }

  const DIGITS: string := "0123456789abcdef"

  function Hex(n: nat): string {
    if n < 16 then [DIGITS[n]] else Hex(n / 16) + [DIGITS[n % 16]]
  }

  function DigitValue(c: char): nat {
    if '0' <= c <= '9' then c as nat - '0' as nat
    else if 'a' <= c <= 'f' then c as nat - 'a' as nat + 10
    else 0
  }

  function ParseHex(s: string): nat {
    if s == "" then 0 else ParseHex(s[..|s| - 1]) * 16 + DigitValue(s[|s| - 1])
  }

  lemma DigitBack(k: nat)
    requires k < 16
    ensures DigitValue(DIGITS[k]) == k
  {
  }

  /** Reading back a printed number gives that number, so printing is injective. */
  lemma {:induction false} HexRoundTrip(n: nat)
    ensures ParseHex(Hex(n)) == n
  {
    var s := Hex(n);
    DigitBack(n % 16);
    if n < 16 {
      assert s[..|s| - 1] == "";
    } else {
      assert s[..|s| - 1] == Hex(n / 16);
      HexRoundTrip(n / 16);
    }
  }

  function Make(kind: Kind, n: nat): string {
    Prefix(kind) + Hex(n)
  }

  /** What identifiers look like: the kind, then hexadecimal digits in lower case without a leading zero. */
  lemma Shape(n: nat)
    ensures Make(DeviceKind, n) == "urn:ls_device:" + Hex(n)
    ensures Make(ResourceKind, n) == "urn:ls_resource:" + Hex(n)
    ensures Make(ServiceKind, n) == "urn:ls_service:" + Hex(n)
    ensures Hex(n) != "" && (n > 0 ==> Hex(n)[0] != '0')
    ensures forall c | c in Hex(n) :: '0' <= c <= '9' || 'a' <= c <= 'f'
  {
    HexDigits(n);
  }

  lemma {:induction false} HexDigits(n: nat)
    ensures Hex(n) != "" && (n > 0 ==> Hex(n)[0] != '0')
    ensures forall c | c in Hex(n) :: '0' <= c <= '9' || 'a' <= c <= 'f'
  {
    if n >= 16 { HexDigits(n / 16); }
  }

  /** The number in an identifier of the given kind, or 0 if it is not one. */
  function NumberIn(kind: Kind, id: string): nat {
    if Prefix(kind) <= id && Hex(ParseHex(id[|Prefix(kind)|..])) == id[|Prefix(kind)|..]
    then ParseHex(id[|Prefix(kind)|..]) else 0
  }

  lemma NumberInMade(kind: Kind, n: nat)
    ensures NumberIn(kind, Make(kind, n)) == n
  {
    assert Make(kind, n)[|Prefix(kind)|..] == Hex(n);
    HexRoundTrip(n);
  }

  /** An id with a number is the one generated with that number. */
  lemma NumberedIs(kind: Kind, id: string)
    requires NumberIn(kind, id) > 0
    ensures id == Make(kind, NumberIn(kind, id))
  {
    StartsWith(Prefix(kind), id);
  }

  lemma StartsWith(prefix: string, s: string)
    requires prefix <= s
    ensures s == prefix + s[|prefix|..]
  {
  }

  /** Two generated identifiers are equal only if both their kinds and their numbers are. */
  lemma MakeInjective(k: Kind, m: nat, l: Kind, n: nat)
    ensures Make(k, m) == Make(l, n) <==> k == l && m == n
  {
    if Make(k, m) == Make(l, n) {
      var u := Make(k, m);
      assert u[7] == Prefix(k)[7] && u[7] == Prefix(l)[7];
      assert u[8] == Prefix(k)[8] && u[8] == Prefix(l)[8];
      assert k == l;
      assert u[|Prefix(k)|..] == Hex(m) && u[|Prefix(l)|..] == Hex(n);
      HexRoundTrip(m);
      HexRoundTrip(n);
    }
  }

  /** `id` was generated with number `n`, for whatever kind of registration. */
  ghost predicate Numbered(id: string, n: nat) {
    exists kind :: id == Make(kind, n)
  }

  /** `log` lists one identifier for every counter value from 1 up, in the order they were issued. */
  ghost predicate IssuedFrom(start: nat, log: seq<string>) {
    forall i | 0 <= i < |log| :: Numbered(log[i], start + i + 1)
  }

  lemma MadeNumbered(kind: Kind, n: nat)
    ensures Numbered(Make(kind, n), n)
  {
  }

  /** The next identifier belongs on the log. */
  lemma IssueNext(start: nat, log: seq<string>, id: string)
    requires IssuedFrom(start, log) && Numbered(id, start + |log| + 1)
    ensures IssuedFrom(start, log + [id])
  {
  }

  /** Identifiers issued at different moments differ, of whatever kinds they are. */
  lemma IssuedDistinct(start: nat, log: seq<string>, i: nat, j: nat)
    requires IssuedFrom(start, log) && i < j < |log|
    ensures log[i] != log[j]
  {
    assert Numbered(log[i], start + i + 1) && Numbered(log[j], start + j + 1);
    var k :| log[i] == Make(k, start + i + 1);
    var l :| log[j] == Make(l, start + j + 1);
    MakeInjective(k, start + i + 1, l, start + j + 1);
  }
}
