/** Recognising the contractor clause in edited contract text:
      "<razão social>, inscrita no CNPJ sob o nº <cnpj>, com sede à <endereço>, ..."
    Two patterns exist in the source. The service one (contract_generation_service.py:240) is
    case-sensitive and its address runs, greedily, to the last comma of the line. The route one
    (contracts_routes.py:266) ignores case and its address runs, lazily, to the first
    ", neste ato" or to the end of the text. Both are written here as one left-to-right scan over
    the "inscrita no CNPJ sob o nº " marker, trying the same alternatives, in the same order, as
    the regular expression would. */
module ContractorClause {
  import opened Common

  const Registration: string := "inscrita no CNPJ sob o nº "
  const Seat: string := "com sede à "
  const ActingClause: string := "neste ato"

  datatype Variant = Service | Route

  /** The three raw groups of a match, before `strip()`. */
  datatype Capture = Capture(name: string, cnpj: string, address: string)

  /** The class `[0-9/.,-]` of the CNPJ group. */
  predicate CnpjChar(c: char)
  {
    IsDigit(c) || c == '/' || c == '.' || c == ',' || c == '-'
  }

  /** What the CNPJ group captures: a non-empty run of `[0-9/.,-]`. */
  predicate CnpjGroup(t: string)
  {
    |t| > 0 && forall j :: 0 <= j < |t| ==> CnpjChar(t[j])
  }

  /** A CNPJ group has no whitespace at either end, so `strip()` keeps it whole. */
  lemma CnpjGroupStripped(t: string)
    requires CnpjGroup(t)
    ensures Strip(t) == t
  {
    assert CnpjChar(t[0]) && CnpjChar(t[|t| - 1]);
    StripUnchanged(t);
  }

  /** The literal `lit` at index `i`; the route pattern compares case-insensitively. */
  predicate LiteralAt(s: string, i: nat, lit: string, v: Variant)
  {
    i + |lit| <= |s|
    && (if v == Route then Lower(s[i..i + |lit|]) == Lower(lit) else s[i..i + |lit|] == lit)
  }

  /** The longest suffix without ',' or '\n': what `[^,\n]*?` captures from the leftmost start. */
  function LastSegment(s: string): (r: string)
    ensures ',' !in r && '\n' !in r
    ensures |r| <= |s| && r == s[|s| - |r|..]
    decreases |s|
  {
    if |s| == 0 then ""
    else if s[|s| - 1] == ',' || s[|s| - 1] == '\n' then ""
    else LastSegment(s[..|s| - 1]) + [s[|s| - 1]]
  }

  /** Length of the leading run of `[0-9/.,-]` characters. */
  function CnpjRun(s: string): (n: nat)
    ensures n <= |s|
    ensures forall k :: 0 <= k < n ==> CnpjChar(s[k])
    ensures n < |s| ==> !CnpjChar(s[n])
    decreases |s|
  {
    if |s| > 0 && CnpjChar(s[0]) then 1 + CnpjRun(s[1..]) else 0
  }

  /** `g` matches `[^,X]+(?:,[^,X]+)*`: non-empty comma-separated pieces, none of them empty;
      X is '\n' unless newlines are allowed. */
  predicate Segments(g: string, allowNewline: bool)
  {
    && |g| > 0 && g[0] != ',' && g[|g| - 1] != ','
    && (forall k :: 0 <= k < |g| - 1 ==> !DoubleComma(g, k))
    && (!allowNewline ==> '\n' !in g)
  }

  /** Two commas in a row at index `k`: an empty piece. */
  predicate DoubleComma(g: string, k: nat)
  {
    k + 1 < |g| && g[k] == ',' && g[k + 1] == ','
  }

  /** `,\s*neste ato` at index `k`. */
  predicate ActingAt(s: string, k: nat, v: Variant)
  {
    k < |s| && s[k] == ',' && LiteralAt(StripLeft(s[k + 1..]), 0, ActingClause, v)
  }

  /** Service address: the longest `Segments` prefix followed by ',' (greedy), searched from
      index `k` downwards. */
  function ServiceAddress(s: string, k: int): (r: Option<string>)
    requires k < |s|
    ensures r.Some? ==> Segments(r.value, false) && |r.value| < |s| && s[..|r.value|] == r.value
    ensures r.Some? ==> s[|r.value|] == ','
    decreases k
  {
    if k < 0 then None
    else if s[k] == ',' && Segments(s[..k], false) then Some(s[..k])
    else ServiceAddress(s, k - 1)
  }

  /** Route address: the shortest `Segments` prefix ending at a comma or at the end of the text
      and followed by ", neste ato" or by the end (lazy), searched from index `k` upwards. */
  function RouteAddress(s: string, k: nat): (r: Option<string>)
    ensures r.Some? ==> Segments(r.value, true) && |r.value| <= |s| && s[..|r.value|] == r.value
    ensures r.Some? ==> |r.value| == |s| || ActingAt(s, |r.value|, Route)
    decreases |s| - k
  {
    if k > |s| then None
    else if Segments(s[..k], true) && (k == |s| || ActingAt(s, k, Route)) then Some(s[..k])
    else RouteAddress(s, k + 1)
  }

  function Address(s: string, v: Variant): (r: Option<string>)
    ensures r.Some? ==> Segments(r.value, v == Route) && |r.value| <= |s| && s[..|r.value|] == r.value
  {
    match v
    case Service => ServiceAddress(s, |s| - 1)
    case Route => RouteAddress(s, 0)
  }

  /** After the marker: the CNPJ group is tried from `k` characters down to one (greedy with
      backtracking); each must be followed by ",", optional spaces, "com sede à " and an address. */
  function AfterRegistration(rest: string, k: nat, v: Variant): (r: Option<(string, string)>)
    requires k <= |rest| && forall j :: 0 <= j < k ==> CnpjChar(rest[j])
    ensures r.Some? ==> 0 < |r.value.0| <= k && r.value.0 == rest[..|r.value.0|]
    ensures r.Some? ==> forall j :: 0 <= j < |r.value.0| ==> CnpjChar(r.value.0[j])
    ensures r.Some? ==> Segments(r.value.1, v == Route)
    decreases k
  {
    if k == 0 then None
    else
      var here :=
        if k < |rest| && rest[k] == ',' then
          var after := StripLeft(rest[k + 1..]);
          if LiteralAt(after, 0, Seat, v) then Address(after[|Seat|..], v) else None
        else None;
      if here.Some? then Some((rest[..k], here.value)) else AfterRegistration(rest, k - 1, v)
  }

  /** The match whose marker starts at `m`, if any: a comma (then optional spaces) must precede
      the marker, and the name is the segment before that comma. */
  function TryAt(s: string, m: nat, v: Variant): (r: Option<Capture>)
    requires m + |Registration| <= |s|
    ensures r.Some? ==> ',' !in r.value.name && '\n' !in r.value.name
    ensures r.Some? ==> CnpjGroup(r.value.cnpj)
    ensures r.Some? ==> Segments(r.value.address, v == Route)
  {
    var pre := StripRight(s[..m]);
    if |pre| == 0 || pre[|pre| - 1] != ',' then None
    else
      var rest := s[m + |Registration|..];
      match AfterRegistration(rest, CnpjRun(rest), v)
      case None => None
      case Some(pair) => Some(Capture(LastSegment(pre[..|pre| - 1]), pair.0, pair.1))
  }

  /** `re.search`: the leftmost marker position from `m` on whose match succeeds. */
  function FindFrom(s: string, m: nat, v: Variant): (r: Option<Capture>)
    ensures r.Some? ==> ',' !in r.value.name && '\n' !in r.value.name
    ensures r.Some? ==> CnpjGroup(r.value.cnpj)
    ensures r.Some? ==> Segments(r.value.address, v == Route)
    decreases |s| - m
  {
    if m + |Registration| > |s| then None
    else if LiteralAt(s, m, Registration, v) && TryAt(s, m, v).Some? then TryAt(s, m, v)
    else FindFrom(s, m + 1, v)
  }

  /** The contractor clause in `s`: name without ',' or newline, a non-empty CNPJ of
      `[0-9/.,-]`, and an address of non-empty comma-separated pieces (single-line for the
      service pattern). */
  function Parse(s: string, v: Variant): (r: Option<Capture>)
    ensures r.Some? ==> ',' !in r.value.name && '\n' !in r.value.name
    ensures r.Some? ==> CnpjGroup(r.value.cnpj)
    ensures r.Some? ==> Segments(r.value.address, v == Route) && |r.value.address| > 0
    ensures r.Some? ==> v == Service ==> '\n' !in r.value.address
  {
    FindFrom(s, 0, v)
  }

  // ------------------------------------------------------------------------------------------
  // Round trip: the clause as the template renders it is recognised, with its three parts.
  // ------------------------------------------------------------------------------------------

  /** No marker anywhere in `t`. */
  predicate MarkerFree(t: string, v: Variant)
  {
    forall m: nat :: m + |Registration| <= |t| ==> !LiteralAt(t, m, Registration, v)
  }

  /** The rendering of the contractor clause, up to the address. */
  function Render(name: string, cnpj: string, address: string): string
  {
    name + ", " + Registration + cnpj + ", " + Seat + address
  }

  /** Address pieces that the route's lazy address does not cut short. */
  predicate NoActingClause(address: string)
  {
    forall k :: 0 <= k < |address| && address[k] == ',' ==> !ActingAt(address, k, Route)
  }

  /** The parts a rendered clause must have to be read back unchanged. */
  predicate Readable(prefix: string, name: string, cnpj: string, v: Variant)
  {
    && (prefix == "" || prefix[|prefix| - 1] == '\n')
    && MarkerFree(prefix + name, v)
    && ',' !in name && '\n' !in name
    && |cnpj| > 0 && (forall j :: 0 <= j < |cnpj| ==> CnpjChar(cnpj[j]) && cnpj[j] != ',')
  }

  lemma LowerNoComma(t: string)
    requires ',' !in t
    ensures ',' !in Lower(t)
  {
  }

  lemma {:induction false} FindFromSkip(s: string, m0: nat, m1: nat, v: Variant)
    requires m0 <= m1
    requires forall m: nat :: m0 <= m < m1 ==> !LiteralAt(s, m, Registration, v)
    ensures FindFrom(s, m0, v) == FindFrom(s, m1, v)
    decreases m1 - m0
  {
    if m0 < m1 {
      FindFromSkip(s, m0 + 1, m1, v);
      if m0 + |Registration| > |s| {
        assert FindFrom(s, m1, v) == None;
      }
    }
  }

  lemma {:induction false} LastSegmentAfterLine(prefix: string, name: string)
    requires prefix == "" || prefix[|prefix| - 1] == '\n'
    requires ',' !in name && '\n' !in name
    ensures LastSegment(prefix + name) == name
    decreases |name|
  {
    var t := prefix + name;
    if |name| == 0 {
      assert t == prefix;
    } else {
      var init := name[..|name| - 1];
      var last := name[|name| - 1];
      assert t[|t| - 1] == last;
      assert t[..|t| - 1] == prefix + init;
      assert LastSegment(t) == LastSegment(prefix + init) + [last];
      LastSegmentAfterLine(prefix, init);
      assert init + [last] == name;
    }
  }

  lemma {:induction false} CnpjRunConcat(x: string, y: string)
    requires forall j :: 0 <= j < |x| ==> CnpjChar(x[j])
    ensures CnpjRun(x + y) == |x| + CnpjRun(y)
    decreases |x|
  {
    if |x| > 0 {
      assert (x + y)[1..] == x[1..] + y;
      CnpjRunConcat(x[1..], y);
    } else {
      assert x + y == y;
    }
  }

  lemma LowerCharComma(c: char)
    ensures LowerChar(c) == ',' <==> c == ','
  {
  }

  /** A marker cannot run over a comma. */
  lemma MarkerHasNoComma(s: string, m: nat, v: Variant)
    ensures LiteralAt(s, m, Registration, v) ==> forall c :: m <= c < m + |Registration| ==> s[c] != ','
  {
    if LiteralAt(s, m, Registration, v) {
      var w := s[m..m + |Registration|];
      assert ',' !in Registration;
      forall c | m <= c < m + |Registration|
        ensures s[c] != ','
      {
        assert w[c - m] == s[c];
        var ch := Registration[c - m];
        if v == Route {
          assert Lower(w)[c - m] == Lower(Registration)[c - m];
          LowerCharComma(s[c]);
          LowerCharComma(ch);
        } else {
          assert s[c] == ch;
        }
      }
    }
  }

  /** A literal match fixes the first character, up to case. */
  lemma LiteralFirstChar(s: string, j: nat, lit: string, v: Variant)
    requires |lit| > 0
    ensures LiteralAt(s, j, lit, v) ==> LowerChar(s[j]) == LowerChar(lit[0])
  {
    if LiteralAt(s, j, lit, v) {
      assert s[j..j + |lit|][0] == s[j];
      if v == Route {
        assert Lower(s[j..j + |lit|])[0] == Lower(lit)[0];
      }
    }
  }

  /** A literal within a prefix is matched in the whole string exactly when in the prefix. */
  lemma LiteralAtPrefix(s: string, pn: string, j: nat, lit: string, v: Variant)
    requires |pn| <= |s| && s[..|pn|] == pn && j + |lit| <= |pn|
    ensures LiteralAt(s, j, lit, v) <==> LiteralAt(pn, j, lit, v)
  {
    forall k | j <= k < j + |lit| ensures s[k] == pn[k] {
      assert s[..|pn|][k] == s[k];
    }
    assert s[j..j + |lit|] == pn[j..j + |lit|];
  }

  /** A marker inside `pn` or overlapping the ", " after it is ruled out. */
  lemma NoMarkerBefore(pn: string, s: string, v: Variant)
    requires MarkerFree(pn, v)
    requires |s| > |pn| + 1 && s[..|pn|] == pn && s[|pn|] == ',' && s[|pn| + 1] == ' '
    ensures forall j: nat :: j < |pn| + 2 ==> !LiteralAt(s, j, Registration, v)
  {
    forall j: nat | j < |pn| + 2
      ensures !LiteralAt(s, j, Registration, v)
    {
      MarkerHasNoComma(s, j, v);
      if j + |Registration| <= |pn| {
        LiteralAtPrefix(s, pn, j, Registration, v);
        assert !LiteralAt(pn, j, Registration, v);
      } else if j <= |pn| {
        assert s[|pn|] == ',';
      } else {
        LiteralFirstChar(s, j, Registration, v);
        assert LowerChar(Registration[0]) == 'i';
      }
    }
  }

  /** The three parts of a concatenation, read back by slicing. */
  lemma SplitThree(a: string, b: string, c: string)
    ensures (a + b + c)[..|a|] == a
    ensures (a + b + c)[|a|..|a| + |b|] == b
    ensures (a + b + c)[|a| + |b|..] == c
  {
  }

  lemma RegroupThree(a: string, b: string, c: string)
    ensures a + b + c == a + (b + c)
  {
  }

  lemma RegroupFour(a: string, b: string, c: string, d: string)
    ensures a + b + c + d == a + (b + c + d)
  {
  }

  /** The rendered clause regrouped around the marker; `reg` and `seat` stand for the two
      literals. */
  lemma RenderRegrouped(prefix: string, name: string, cnpj: string, address: string, tail: string,
                        reg: string, seat: string)
    ensures prefix + (name + ", " + reg + cnpj + ", " + seat + address) + tail
         == (prefix + name) + ", " + reg + (cnpj + ", " + (seat + (address + tail)))
  {
  }

  /** What follows `pn` in `pn + ", " + b + c`. */
  lemma CommaSpaceAfter(pn: string, b: string, c: string)
    ensures |pn + ", " + b + c| > |pn| + 1
    ensures (pn + ", " + b + c)[..|pn|] == pn
    ensures (pn + ", " + b + c)[|pn|] == ',' && (pn + ", " + b + c)[|pn| + 1] == ' '
  {
  }

  /** The match at the rendered marker. */
  lemma TryAtRendered(prefix: string, name: string, cnpj: string, y: string, s: string, v: Variant)
    requires Readable(prefix, name, cnpj, v)
    requires Address(y, v).Some?
    requires s == (prefix + name) + ", " + Registration + (cnpj + ", " + (Seat + y))
    ensures |prefix + name| + 2 + |Registration| <= |s|
    ensures LiteralAt(s, |prefix + name| + 2, Registration, v)
    ensures TryAt(s, |prefix + name| + 2, v) == Some(Capture(name, cnpj, Address(y, v).value))
  {
    var pn := prefix + name;
    var m := |pn| + 2;
    var rest := cnpj + ", " + (Seat + y);
    SplitThree(pn + ", ", Registration, rest);
    assert s[m..m + |Registration|] == Registration;
    StripRightCommaSpace(pn);
    var pre := StripRight(s[..m]);
    assert pre[..|pre| - 1] == pn;
    LastSegmentAfterLine(prefix, name);
    assert s[m + |Registration|..] == rest;
    AfterRegistrationRendered(cnpj, y, rest, v);
  }

  lemma StripRightCommaSpace(x: string)
    ensures StripRight(x + ", ") == x + ","
  {
    assert (x + ", ")[..|x + ", "| - 1] == x + ",";
  }

  lemma StripLeftSpace(y: string)
    requires |y| > 0 && !IsSpace(y[0])
    ensures StripLeft(" " + y) == y
  {
    assert (" " + y)[1..] == y;
  }

  /** "com sede à " followed by `y` is accepted as the seat literal. */
  lemma SeatLiteral(x: string, y: string, v: Variant)
    requires x == Seat + y
    ensures LiteralAt(x, 0, Seat, v) && x[|Seat|..] == y
  {
    assert x[..|Seat|] == Seat;
  }

  /** The CNPJ group ending at the comma at `k`, when the seat and an address follow. */
  lemma AfterRegistrationAt(rest: string, k: nat, y: string, v: Variant)
    requires 0 < k < |rest| && rest[k] == ',' && forall j :: 0 <= j < k ==> CnpjChar(rest[j])
    requires StripLeft(rest[k + 1..]) == Seat + y
    requires Address(y, v).Some?
    ensures AfterRegistration(rest, k, v) == Some((rest[..k], Address(y, v).value))
  {
    SeatLiteral(StripLeft(rest[k + 1..]), y, v);
  }

  /** A CNPJ group not followed by a comma is given up for a shorter one. */
  lemma AfterRegistrationSkip(rest: string, k: nat, v: Variant)
    requires 0 < k < |rest| && rest[k] != ',' && forall j :: 0 <= j < k ==> CnpjChar(rest[j])
    ensures AfterRegistration(rest, k, v) == AfterRegistration(rest, k - 1, v)
  {
  }

  lemma CnpjRunRendered(cnpj: string, z: string, rest: string)
    requires forall j :: 0 <= j < |cnpj| ==> CnpjChar(cnpj[j]) && cnpj[j] != ','
    requires rest == cnpj + ", " + z
    ensures CnpjRun(rest) == |cnpj| + 1
  {
    var after := ", " + z;
    assert rest == cnpj + after;
    CnpjRunConcat(cnpj, after);
    assert after[1..] == " " + z;
  }

  /** The CNPJ and address are recognised after the marker when the address is followed by what
      address acceptance needs. */
  lemma AfterRegistrationRendered(cnpj: string, y: string, rest: string, v: Variant)
    requires |cnpj| > 0 && forall j :: 0 <= j < |cnpj| ==> CnpjChar(cnpj[j]) && cnpj[j] != ','
    requires rest == cnpj + ", " + (Seat + y)
    requires Address(y, v).Some?
    ensures CnpjRun(rest) == |cnpj| + 1
    ensures AfterRegistration(rest, |cnpj| + 1, v) == Some((cnpj, Address(y, v).value))
  {
    var k := |cnpj|;
    var z := Seat + y;
    CnpjRunRendered(cnpj, z, rest);
    assert rest[k + 1] == ' ';
    AfterRegistrationSkip(rest, k + 1, v);
    assert rest[k] == ',';
    assert rest[k + 1..] == " " + z;
    StripLeftSpace(z);
    AfterRegistrationAt(rest, k, y, v);
    assert rest[..k] == cnpj;
  }

  /** `re.search` returns the match at the first marker position that succeeds. */
  lemma ParseAt(s: string, m: nat, v: Variant)
    requires forall j: nat :: j < m ==> !LiteralAt(s, j, Registration, v)
    requires m + |Registration| <= |s| && LiteralAt(s, m, Registration, v) && TryAt(s, m, v).Some?
    ensures Parse(s, v) == TryAt(s, m, v)
  {
    FindFromSkip(s, 0, m, v);
  }

  /** The whole match: the marker position after the rendered name is the first one that
      succeeds, and it yields the three parts. */
  lemma ParseRendered(prefix: string, name: string, cnpj: string, address: string, tail: string, v: Variant)
    requires Readable(prefix, name, cnpj, v)
    requires Address(address + tail, v) == Some(address)
    ensures Parse(prefix + Render(name, cnpj, address) + tail, v) == Some(Capture(name, cnpj, address))
  {
    var pn := prefix + name;
    var y := address + tail;
    var s := prefix + Render(name, cnpj, address) + tail;
    RenderRegrouped(prefix, name, cnpj, address, tail, Registration, Seat);
    CommaSpaceAfter(pn, Registration, cnpj + ", " + (Seat + y));
    NoMarkerBefore(pn, s, v);
    TryAtRendered(prefix, name, cnpj, y, s, v);
    ParseAt(s, |pn| + 2, v);
  }

  /** For the service pattern, an address followed by ',' and the end of its line is taken
      whole. */
  lemma {:induction false} ServiceAddressLineEnd(address: string, tail: string, k: int)
    requires Segments(address, false)
    requires tail == "" || tail[0] == '\n'
    requires |address| <= k < |address + "," + tail|
    ensures ServiceAddress(address + "," + tail, k) == Some(address)
    decreases k
  {
    var s := address + "," + tail;
    if k == |address| {
      assert s[..k] == address;
    } else {
      assert s[|address| + 1] == '\n';
      if k == |address| + 1 {
        assert s[..k][k - 1] == ',';
      } else {
        assert s[..k][|address| + 1] == '\n';
      }
      ServiceAddressLineEnd(address, tail, k - 1);
    }
  }

  /** Round trip for the service pattern: a clause whose address ends its line with a comma. */
  lemma ServiceReadsRenderedClause(prefix: string, name: string, cnpj: string, address: string, tail: string)
    requires Readable(prefix, name, cnpj, Service)
    requires Segments(address, false)
    requires tail == "" || tail[0] == '\n'
    ensures Parse(prefix + Render(name, cnpj, address) + ("," + tail), Service) == Some(Capture(name, cnpj, address))
  {
    assert Address(address + ("," + tail), Service) == Some(address) by {
      ServiceAddressLineEnd(address, tail, |address + "," + tail| - 1);
      RegroupThree(address, ",", tail);
    }
    ParseRendered(prefix, name, cnpj, address, "," + tail, Service);
  }


  /** A literal match fixes each matched character, up to case. */
  lemma LiteralChars(s: string, j: nat, lit: string, v: Variant)
    ensures LiteralAt(s, j, lit, v) ==> forall i :: 0 <= i < |lit| ==> LowerChar(s[j + i]) == LowerChar(lit[i])
  {
    if LiteralAt(s, j, lit, v) {
      forall i | 0 <= i < |lit|
        ensures LowerChar(s[j + i]) == LowerChar(lit[i])
      {
        assert s[j..j + |lit|][i] == s[j + i];
        if v == Route {
          assert Lower(s[j..j + |lit|])[i] == Lower(lit)[i];
        }
      }
    }
  }

  /** A literal without commas that matches in front of a comma lies wholly before it. */
  lemma LiteralBeforeComma(t: string, x: string, lit: string, v: Variant)
    requires |x| > 0 && x[0] == ','
    requires forall i :: 0 <= i < |lit| ==> LowerChar(lit[i]) != ','
    ensures LiteralAt(t + x, 0, lit, v) ==> LiteralAt(t, 0, lit, v)
  {
    if LiteralAt(t + x, 0, lit, v) {
      LiteralChars(t + x, 0, lit, v);
      assert (t + x)[|t|] == ',';
      LowerCharComma(',');
      assert |t| >= |lit|;
      assert (t + x)[..|lit|] == t[..|lit|];
    }
  }

  lemma {:induction false} StripLeftConcat(b: string, x: string)
    requires |x| > 0 && !IsSpace(x[0])
    ensures StripLeft(b + x) == StripLeft(b) + x
    decreases |b|
  {
    if |b| == 0 {
      assert b + x == x;
    } else if IsSpace(b[0]) {
      assert (b + x)[1..] == b[1..] + x;
      StripLeftConcat(b[1..], x);
    }
  }

  lemma ActingClauseNoComma()
    ensures forall i :: 0 <= i < |ActingClause| ==> LowerChar(ActingClause[i]) != ','
  {
    forall i | 0 <= i < |ActingClause|
      ensures LowerChar(ActingClause[i]) != ','
    {
      assert ActingClause[i] in ActingClause;
      LowerCharComma(ActingClause[i]);
    }
  }

  /** Characters after the address decide `ActingAt` only at the address's own commas when what
      follows starts with a comma. */
  lemma ActingAtPrefix(address: string, x: string, k: nat)
    requires |x| > 0 && x[0] == ','
    requires k < |address|
    ensures ActingAt(address + x, k, Route) ==> ActingAt(address, k, Route)
  {
    var s := address + x;
    var b := address[k + 1..];
    assert s[k + 1..] == b + x;
    assert s[k] == address[k];
    StripLeftConcat(b, x);
    ActingClauseNoComma();
    LiteralBeforeComma(StripLeft(b), x, ActingClause, Route);
  }

  /** For the route pattern, an address followed by ", neste ato" is taken whole. */
  lemma {:induction false} RouteAddressBeforeActing(address: string, tail: string, k: nat)
    requires Segments(address, true) && NoActingClause(address)
    requires k <= |address|
    ensures RouteAddress(address + ", " + ActingClause + tail, k) == Some(address)
    decreases |address| - k
  {
    var s := address + ", " + ActingClause + tail;
    var x := ", " + ActingClause + tail;
    assert s == address + x;
    if k == |address| {
      assert s[..k] == address;
      assert s[k + 1..] == " " + (ActingClause + tail);
      StripLeftSpace(ActingClause + tail);
      assert StripLeft(s[k + 1..])[..|ActingClause|] == ActingClause;
      assert ActingAt(s, k, Route);
    } else {
      ActingAtPrefix(address, x, k);
      assert k != |s|;
      RouteAddressBeforeActing(address, tail, k + 1);
    }
  }

  /** Round trip for the route pattern: a clause whose address is followed by ", neste ato". */
  lemma RouteReadsRenderedClause(prefix: string, name: string, cnpj: string, address: string, tail: string)
    requires Readable(prefix, name, cnpj, Route)
    requires Segments(address, true) && NoActingClause(address)
    ensures Parse(prefix + Render(name, cnpj, address) + (", " + ActingClause + tail), Route)
         == Some(Capture(name, cnpj, address))
  {
    var x := ", " + ActingClause + tail;
    assert Address(address + x, Route) == Some(address) by {
      RouteAddressBeforeActing(address, tail, 0);
      RegroupFour(address, ", ", ActingClause, tail);
    }
    ParseRendered(prefix, name, cnpj, address, x, Route);
  }

}
