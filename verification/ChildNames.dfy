/** CHILD_SA names: strongSwan reports a configured child `child-<host>` as
    `child-<host>-<unique id>`, and health reconciliation compares configured names. */
module ChildNames {
  import opened Text
  import Ipv4

  /** net.ParseIP followed by String: None for text that is no address. */
  type AddressParser = string -> Option<string>

  predicate Quoting(c: char) { c in " \t\r\n'\"" }

  predicate AddressText(s: string) {
    s != "" && '-' !in s && '/' !in s && forall i :: 0 <= i < |s| ==> !Quoting(s[i])
  }

  /** What the model relies on about net.ParseIP: address text has no quoting characters,
      dash or slash, and the canonical text of an address parses to itself. */
  ghost predicate Canonicalizing(parse: AddressParser) {
    forall s :: parse(s).Some? ==> AddressText(s) && parse(parse(s).value) == parse(s)
  }

  /** strings.Trim with the cutset of cleanIP. */
  function Trim(s: string): string {
    if s != "" && Quoting(s[0]) then Trim(s[1..])
    else if s != "" && Quoting(s[|s| - 1]) then Trim(s[..|s| - 1])
    else s
  }

  function CleanIp(parse: AddressParser, value: string): string {
    var r := parse(BeforeSlash(Trim(value)));
    if r.Some? then r.value else ""
  }

  /** The host named by the text after "child-", or "". */
  function HostOf(parse: AddressParser, value: string): string {
    var direct := CleanIp(parse, value);
    if direct != "" then direct
    else if '-' !in value || LastIndex(value, '-') == 0 then ""
    else
      var separator := LastIndex(value, '-');
      if ParseUint(value[separator + 1..], WORD64).None? then ""
      else CleanIp(parse, value[..separator])
  }

  /** The host encoded in a reported child name, or "". */
  function ChildHostIp(parse: AddressParser, name: string): string {
    if "child-" <= name then HostOf(parse, name[|"child-"|..]) else ""
  }

  function CanonicalName(parse: AddressParser, name: string): string {
    var host := ChildHostIp(parse, name);
    if host == "" then "" else "child-" + host
  }

  /** A host address in the form cleanIP itself produces. */
  predicate CanonicalHost(parse: AddressParser, h: string) {
    h != "" && CleanIp(parse, h) == h
  }

  /** The child names the stale-local reaper accepts as belonging to a remote host. */
  predicate OwnedName(remote: string, name: string) {
    var prefix := "child-" + remote;
    if prefix + "-" <= name then
      var id := ParseUint(name[|prefix| + 1..], WORD64);
      id.Some? && id.value > 0
    else name == prefix
  }

  // ---------------------------------------------------------------- proofs

  lemma CleanIpResult(parse: AddressParser, value: string)
    requires Canonicalizing(parse) && CleanIp(parse, value) != ""
    ensures var r := CleanIp(parse, value); parse(r) == Some(r) && AddressText(r)
  {
    var s := BeforeSlash(Trim(value));
    assert parse(parse(s).value) == parse(s);
  }

  lemma CleanIpFixed(parse: AddressParser, h: string)
    requires Canonicalizing(parse)
    ensures CanonicalHost(parse, h) <==> h != "" && parse(h) == Some(h)
  {
    if h != "" && CleanIp(parse, h) == h { CleanIpResult(parse, h); }
    if parse(h) == Some(h) { assert AddressText(h); }
  }

  predicate AllQuoting(s: string) { forall i :: 0 <= i < |s| ==> s[i] in " \t\r\n'\"" }

  /** Quoting characters around a canonical address are trimmed. */
  lemma {:induction false} TrimUnwraps(before: string, h: string, after: string)
    requires AllQuoting(before) && AllQuoting(after) && AddressText(h)
    ensures Trim(before + h + after) == h
    decreases |before| + |after|
  {
    var s := before + h + after;
    if before != "" {
      assert s[0] == before[0] && s[1..] == before[1..] + h + after;
      TrimUnwraps(before[1..], h, after);
    } else if after != "" {
      var n := |after| - 1;
      assert s[0] == h[0] && s[|s| - 1] == after[n] && s[..|s| - 1] == before + h + after[..n];
      TrimUnwraps(before, h, after[..n]);
    } else {
      assert s == h;
    }
  }

  /** Trimming reaches no further than a slash. */
  lemma {:induction false} TrimStopsAtSlash(h: string, text: string) returns (rest: string)
    requires AddressText(h)
    ensures Trim(h + "/" + text) == h + "/" + rest
  {
    var s := h + "/" + text;
    assert s[0] == h[0];
    if text != "" && Quoting(text[|text| - 1]) {
      assert s[|s| - 1] == text[|text| - 1] && s[..|s| - 1] == h + "/" + text[..|text| - 1];
      rest := TrimStopsAtSlash(h, text[..|text| - 1]);
    } else {
      rest := text;
      assert s[|s| - 1] == if text == "" then '/' else text[|text| - 1];
    }
  }

  /** A canonical address is read from its quoted form and from its form with a prefix length. */
  lemma CleanIpReads(parse: AddressParser, before: string, h: string, after: string, text: string)
    requires Canonicalizing(parse) && CanonicalHost(parse, h) && AllQuoting(before) && AllQuoting(after)
    ensures CleanIp(parse, before + h + after) == h
    ensures CleanIp(parse, h + "/" + text) == h
  {
    CleanIpFixed(parse, h);
    assert AddressText(h) by { assert parse(h).Some?; }
    TrimUnwraps(before, h, after);
    var rest := TrimStopsAtSlash(h, text);
    BeforeSlashOfSuffixed(h, rest);
  }

  lemma DirectName(parse: AddressParser, h: string)
    requires Canonicalizing(parse) && CanonicalHost(parse, h)
    ensures CanonicalName(parse, "child-" + h) == "child-" + h
  {
    assert ("child-" + h)[|"child-"|..] == h;
  }

  lemma SuffixedHost(parse: AddressParser, h: string, id: string)
    requires Canonicalizing(parse) && CanonicalHost(parse, h)
    requires ParseUint(id, WORD64).Some?
    ensures HostOf(parse, h + "-" + id) == h
  {
    var value := h + "-" + id;
    CleanIpFixed(parse, h);
    assert AddressText(h) by { assert parse(h).Some?; }
    assert '-' !in id by { assert AllDigits(id); }
    DashedIsNoAddress(parse, h, id);
    LastIndexBefore(h, '-', id);
  }

  lemma SuffixedName(parse: AddressParser, h: string, id: string)
    requires Canonicalizing(parse) && CanonicalHost(parse, h)
    requires ParseUint(id, WORD64).Some?
    ensures CanonicalName(parse, "child-" + h + "-" + id) == "child-" + h
  {
    var name := "child-" + h + "-" + id;
    assert name[..|"child-"|] == "child-" && name[|"child-"|..] == h + "-" + id;
    SuffixedHost(parse, h, id);
  }

  lemma DashedIsNoAddress(parse: AddressParser, h: string, id: string)
    requires Canonicalizing(parse) && AddressText(h)
    requires id != "" && AllDigits(id)
    ensures CleanIp(parse, h + "-" + id) == ""
  {
    var value := h + "-" + id;
    assert value[0] == h[0] && value[|value| - 1] == id[|id| - 1];
    assert IsDigit(id[|id| - 1]);
    assert Trim(value) == value;
    assert '/' !in value;
    assert value[|h|] == '-' && !AddressText(value);
  }

  /** A reported name, bare or with any uint64 suffix, canonicalizes to the configured name
      exactly when the configured host is in canonical form. */
  lemma ReportedNamesCanonicalize(parse: AddressParser, h: string, n: nat)
    requires Canonicalizing(parse) && n < WORD64
    ensures CanonicalName(parse, "child-" + h) == "child-" + h <==> CanonicalHost(parse, h)
    ensures CanonicalName(parse, "child-" + h + "-" + Decimal(n)) == "child-" + h <==> CanonicalHost(parse, h)
  {
    if CanonicalHost(parse, h) {
      DirectName(parse, h);
      SuffixedName(parse, h, Decimal(n));
    }
    forall name | CanonicalName(parse, name) == "child-" + h ensures CanonicalHost(parse, h) {
      NamedHostIsCanonical(parse, name, h);
    }
  }

  lemma NamedHostIsCanonical(parse: AddressParser, name: string, h: string)
    requires Canonicalizing(parse) && CanonicalName(parse, name) == "child-" + h
    ensures CanonicalHost(parse, h)
  {
    var host := ChildHostIp(parse, name);
    assert host != "" && ("child-" + host)[|"child-"|..] == host && ("child-" + h)[|"child-"|..] == h;
    var value := name[|"child-"|..];
    if CleanIp(parse, value) != "" {
      CleanIpResult(parse, value);
    } else {
      CleanIpResult(parse, value[..LastIndex(value, '-')]);
    }
    CleanIpFixed(parse, h);
  }

  lemma CanonicalNameIdempotent(parse: AddressParser, name: string)
    requires Canonicalizing(parse)
    ensures var c := CanonicalName(parse, name); c != "" ==> CanonicalName(parse, c) == c
  {
    var host := ChildHostIp(parse, name);
    if host != "" {
      NamedHostIsCanonical(parse, name, host);
      DirectName(parse, host);
    }
  }

  lemma OwnedNameCanonicalizes(parse: AddressParser, remote: string, name: string)
    requires Canonicalizing(parse) && CanonicalHost(parse, remote) && OwnedName(remote, name)
    ensures CanonicalName(parse, name) == "child-" + remote
  {
    var prefix := "child-" + remote;
    if prefix + "-" <= name {
      var id := name[|prefix| + 1..];
      assert name == "child-" + remote + "-" + id;
      SuffixedName(parse, remote, id);
    } else {
      DirectName(parse, remote);
    }
  }

  /** Every child name the reaper deems owned canonicalizes to the configured name. */
  ghost predicate OwnedNamesAgree(parse: AddressParser, remote: string) {
    forall name :: OwnedName(remote, name) ==> CanonicalName(parse, name) == "child-" + remote
  }

  /** This is so for exactly the canonical remote hosts. */
  lemma OwnedNamesCanonicalize(parse: AddressParser, remote: string)
    requires Canonicalizing(parse)
    ensures OwnedNamesAgree(parse, remote) <==> CanonicalHost(parse, remote)
  {
    if CanonicalHost(parse, remote) {
      OwnedNamesOfCanonicalHost(parse, remote);
    } else {
      BareNameOfOtherHost(parse, remote);
    }
  }

  lemma OwnedNamesOfCanonicalHost(parse: AddressParser, remote: string)
    requires Canonicalizing(parse) && CanonicalHost(parse, remote)
    ensures OwnedNamesAgree(parse, remote)
  {
    forall name | OwnedName(remote, name) ensures CanonicalName(parse, name) == "child-" + remote {
      OwnedNameCanonicalizes(parse, remote, name);
    }
  }

  lemma BareNameOfOtherHost(parse: AddressParser, remote: string)
    requires Canonicalizing(parse) && !CanonicalHost(parse, remote)
    ensures !OwnedNamesAgree(parse, remote)
  {
    var name := "child-" + remote;
    assert OwnedName(remote, name) by { assert |name + "-"| > |name|; }
    if CanonicalName(parse, name) == name { NamedHostIsCanonical(parse, name, remote); }
  }

  /** The dotted-quad fragment of net.ParseIP; it meets the laws above. */
  function ParseIpv4Text(s: string): Option<string> {
    var r := Ipv4.Parse(s);
    if r.Some? then Some(Ipv4.Format(r.value)) else None
  }

  lemma Ipv4TextCanonicalizes()
    ensures Canonicalizing(ParseIpv4Text)
  {
    forall s | ParseIpv4Text(s).Some?
      ensures AddressText(s) && ParseIpv4Text(ParseIpv4Text(s).value) == ParseIpv4Text(s)
    {
      var x := Ipv4.Parse(s).value;
      assert s == Ipv4.Format(x);
      Ipv4.FormatAlphabet(x);
      forall i | 0 <= i < |s| ensures !Quoting(s[i]) && s[i] != '-' && s[i] != '/' {
        assert Ipv4.AddressChar(s[i]);
      }
    }
  }
}
