/** Which strings Python's `ipaddress.ip_address` accepts as an IPv4 or an
    IPv6 address (the rules of Python 3.9.5 and later: no leading zeros in a
    dotted-quad octet, an optional `%scope` suffix on IPv6, an optional
    dotted-quad tail in IPv6). Only acceptance is modelled, not the numeric
    value of the address. */
module IpLiteral {
  import opened Strings
  import opened Errors

  predicate IsDecimalDigit(c: char)
  {
    '0' <= c <= '9'
  }

  predicate IsHexDigit(c: char)
  {
    '0' <= c <= '9' || 'a' <= c <= 'f' || 'A' <= c <= 'F'
  }

  /** The value of a string of decimal digits. */
  function DecimalValue(s: string): nat
    requires forall i :: 0 <= i < |s| ==> IsDecimalDigit(s[i])
  {
    if s == [] then 0
    else
      assert IsDecimalDigit(s[|s| - 1]);
      DecimalValue(s[..|s| - 1]) * 10 + (s[|s| - 1] as int - '0' as int)
  }

  /** One octet of a dotted quad: one to three digits, no leading zero
      unless the octet is "0", at most 255. */
  predicate IsOctet(s: string)
  {
    1 <= |s| <= 3 &&
    (forall i :: 0 <= i < |s| ==> IsDecimalDigit(s[i])) &&
    (s == "0" || s[0] != '0') &&
    DecimalValue(s) <= 255
  }

  /** `IPv4Address(s)` succeeds: exactly four octets separated by dots. */
  predicate IsIPv4(s: string)
  {
    var octets := Split(s, '.');
    |octets| == 4 && forall i :: 0 <= i < 4 ==> IsOctet(octets[i])
  }

  /** One group of an IPv6 address: one to four hexadecimal digits. */
  predicate IsHextet(s: string)
  {
    1 <= |s| <= 4 && forall i :: 0 <= i < |s| ==> IsHexDigit(s[i])
  }

  /** The address without its `%scope` suffix; None when the scope is empty
      or holds a second '%'. */
  function StripScope(s: string): (r: Option<string>)
    ensures r.Some? ==> StartsWith(s, r.value)
    ensures '%' !in s ==> r == Some(s)
    ensures '%' in s ==> (r.Some? <==> Count(s, '%') == 1 && s[|s| - 1] != '%')
    ensures r.Some? && '%' in s ==> '%' !in r.value && |r.value| < |s| && s[|r.value|] == '%'
  {
    var p := Split(s, '%');
    SplitHead(s, '%');
    SplitLength(s, '%');
    ScopeParts(s);
    if |p| == 1 then
      SplitNoSeparator(s, '%');
      Some(s)
    else if |p| == 2 && p[1] != "" then Some(p[0])
    else None
  }

  /** With a '%' present, the split has two parts and a non-empty second
      part exactly when there is one '%' and it is not the last character. */
  lemma ScopeParts(s: string)
    ensures '%' in s ==> var p := Split(s, '%');
      (|p| == 2 && p[1] != "") <==> (Count(s, '%') == 1 && s[|s| - 1] != '%')
  {
    SplitLength(s, '%');
    if |Split(s, '%')| == 2 {
      TwoScopeParts(s);
    }
  }

  /** Of two parts, the second is empty exactly when the '%' ends the string. */
  lemma TwoScopeParts(s: string)
    requires |Split(s, '%')| == 2
    ensures Split(s, '%')[1] == "" <==> s[|s| - 1] == '%'
  {
    var p := Split(s, '%');
    SplitLength(s, '%');
    SplitHead(s, '%');
    var a := p[0];
    var b := s[|a| + 1..];
    assert s == a + ['%'] + b;
    SplitAfterSeparator(a, b, '%');
    assert p == [a] + Split(b, '%');
    SplitLength(b, '%');
    SplitNoSeparator(b, '%');
    LastAfterSeparator(s, a, b);
  }

  /** The last character of a + "%" + b is '%' exactly when b is empty. */
  lemma LastAfterSeparator(s: string, a: string, b: string)
    requires s == a + ['%'] + b && '%' !in b
    ensures b == "" <==> s[|s| - 1] == '%'
  {
    if b != "" {
      assert s[|s| - 1] == b[|b| - 1];
    }
  }

  /** A last group holding a '.' must be a dotted quad, which stands for two
      groups; None when it is not one. */
  function ExpandIPv4Tail(parts: seq<string>): (r: Option<seq<string>>)
    requires |parts| >= 1
    ensures r.Some? ==> |r.value| >= |parts|
  {
    var last := parts[|parts| - 1];
    if '.' in last then
      if IsIPv4(last) then Some(parts[..|parts| - 1] + ["0", "0"]) else None
    else Some(parts)
  }

  /** The groups of an IPv6 address around at most one "::" at index `k`
      (an empty part strictly inside the list): the groups before and after
      it are hextets and leave at least one group for "::" to stand for. */
  predicate ValidWithSkip(p: seq<string>, k: int)
    requires 1 <= k < |p| - 1
  {
    (forall i :: 1 <= i < |p| - 1 && i != k ==> p[i] != "") &&
    (p[0] == "" ==> k == 1) &&
    (p[|p| - 1] == "" ==> k == |p| - 2) &&
    var hi := if p[0] == "" then 0 else k;
    var lo := if p[|p| - 1] == "" then 0 else |p| - k - 1;
    hi + lo <= 7 &&
    (forall i :: 0 <= i < hi ==> IsHextet(p[i])) &&
    (forall i :: |p| - lo <= i < |p| ==> IsHextet(p[i]))
  }

  /** The colon-separated groups of an IPv6 address: at most nine parts,
      and either exactly one "::" or exactly eight hextets. */
  predicate ValidGroups(p: seq<string>)
  {
    |p| <= 9 &&
    if exists k :: 1 <= k < |p| - 1 && p[k] == "" then
      exists k :: 1 <= k < |p| - 1 && p[k] == "" && ValidWithSkip(p, k)
    else
      |p| == 8 && forall i :: 0 <= i < 8 ==> IsHextet(p[i])
  }

  /** `IPv6Address(s)` succeeds. */
  predicate IsIPv6(s: string)
  {
    '/' !in s &&
    match StripScope(s)
    case None => false
    case Some(address) =>
      var parts := Split(address, ':');
      |parts| >= 3 &&
      match ExpandIPv4Tail(parts)
      case None => false
      case Some(groups) => ValidGroups(groups)
  }

  /** A dotted quad holds digits and dots only, so no colon. */
  lemma IPv4HasNoColon(s: string)
    requires IsIPv4(s)
    ensures ':' !in s
  {
    var octets := Split(s, '.');
    forall i | 0 <= i < |octets| ensures ':' !in octets[i] {
      assert IsOctet(octets[i]);
    }
    SplitExcludes(s, '.', ':');
  }

  /** An IPv6 address has at least two colons before any scope suffix. */
  lemma IPv6HasColon(s: string)
    requires IsIPv6(s)
    ensures ':' in s
  {
    var address := StripScope(s).value;
    SplitLength(address, ':');
    assert ':' in address;
    var j :| 0 <= j < |address| && address[j] == ':';
    assert s[j] == address[j];
  }

  /** No string is both: `ip_address` never has to choose. */
  lemma {:induction false} FamiliesDisjoint(s: string)
    ensures !(IsIPv4(s) && IsIPv6(s))
  {
    if IsIPv4(s) && IsIPv6(s) {
      IPv4HasNoColon(s);
      IPv6HasColon(s);
    }
  }

  lemma {:induction false} IPv4Example()
    ensures IsIPv4("10.0.0.1") && !IsIPv6("10.0.0.1")
  {
    IPv4ExampleParts();
    OctetExamples();
    FamiliesDisjoint("10.0.0.1");
  }

  lemma IPv4ExampleParts()
    ensures Split("10.0.0.1", '.') == ["10", "0", "0", "1"]
  {
    SplitFour("10", "0", "0", "1", '.');
    assert "10.0.0.1" == "10" + ['.'] + ("0" + ['.'] + ("0" + ['.'] + "1"));
  }

  lemma SplitFour(a: string, b: string, c: string, d: string, sep: char)
    requires sep !in a && sep !in b && sep !in c && sep !in d
    ensures Split(a + [sep] + (b + [sep] + (c + [sep] + d)), sep) == [a, b, c, d]
  {
    SplitTwo(c, d, sep);
    SplitAfterSeparator(b, c + [sep] + d, sep);
    SplitAfterSeparator(a, b + [sep] + (c + [sep] + d), sep);
  }

  lemma OctetExamples()
    ensures IsOctet("10") && IsOctet("0") && IsOctet("1")
  {
    assert DecimalValue("1") == 1 by {
      assert "1"[..0] == "";
    }
    assert DecimalValue("10") == 10 by {
      assert "10"[..1] == "1";
    }
    assert DecimalValue("0") == 0 by {
      assert "0"[..0] == "";
    }
  }

  lemma {:induction false} IPv6Example()
    ensures IsIPv6("fe80::1") && !IsIPv4("fe80::1")
  {
    IPv6ExampleParts();
    IPv6ExampleGroups();
    IPv6ExampleChars();
    PlainIPv6("fe80::1", ["fe80", "", "1"]);
    FamiliesDisjoint("fe80::1");
  }

  lemma IPv6ExampleChars()
    ensures '/' !in "fe80::1" && '%' !in "fe80::1" && '.' !in "1"
  {
  }

  /** An address without '/', '%' or a dotted-quad tail is IPv6 when its
      colon-separated groups are. */
  lemma PlainIPv6(s: string, parts: seq<string>)
    requires '/' !in s && '%' !in s
    requires Split(s, ':') == parts && |parts| >= 3 && '.' !in parts[|parts| - 1]
    requires ValidGroups(parts)
    ensures IsIPv6(s)
  {
    assert StripScope(s) == Some(s);
    assert ExpandIPv4Tail(parts) == Some(parts);
  }

  lemma IPv6ExampleParts()
    ensures Split("fe80::1", ':') == ["fe80", "", "1"]
  {
    SplitNoSeparator("1", ':');
    SplitAfterSeparator("", "1", ':');
    SplitAfterSeparator("fe80", ":1", ':');
    assert "fe80::1" == "fe80" + [':'] + ":1";
    assert ":1" == "" + [':'] + "1";
  }

  lemma IPv6ExampleGroups()
    ensures ValidGroups(["fe80", "", "1"])
  {
    var parts := ["fe80", "", "1"];
    assert IsHextet("fe80") && IsHextet("1");
    assert ValidWithSkip(parts, 1);
  }

  /** A string with neither a '.' nor a ':' is not an address. */
  lemma {:induction false} NeitherSeparator(s: string)
    requires '.' !in s && ':' !in s
    ensures !IsIPv4(s) && !IsIPv6(s)
  {
    SplitNoSeparator(s, '.');
    if StripScope(s).Some? {
      var address := StripScope(s).value;
      forall j | 0 <= j < |address| ensures address[j] != ':' {
        assert address[j] == s[j];
      }
      SplitNoSeparator(address, ':');
    }
  }

  lemma NotAnAddressExample()
    ensures !IsIPv4("not-an-ip") && !IsIPv6("not-an-ip")
  {
    NeitherSeparator("not-an-ip");
  }
}
