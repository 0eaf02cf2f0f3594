/**
 * The line-level part of the LAS reader: classifying one line, and splitting
 * a header line into mnemonic, unit, value and description. The parsers
 * follow nom's conventions: `Some((rest, parsed))` on success, `None` for a
 * recoverable parse error.
 */
module LineParser {
  import opened Wrappers
  import opened Chars
  import opened Text
  import LasItems

  /** What one line of a LAS file is. */
  datatype LineType =
    | SectionTitle(title: string)
    | HeaderItem(item: LasItems.HeaderItem)
    | Comment
    | Empty
    | DataLine(content: string)

  /**
   * `parse_mnemonic`: nom's `take_while1(is_mnemonic_char)`. Gives (remaining
   * input, mnemonic): the mnemonic is the maximal run of mnemonic characters
   * at the start, and the parser fails when that run is empty.
   */
  function ParseMnemonic(input: string): (r: Option<(string, string)>)
    ensures r.Some? <==> input != [] && IsMnemonicChar(input[0])
    ensures r.Some? ==> 0 < |r.value.1| <= |input|
    ensures r.Some? ==> r.value.1 == input[..|r.value.1|] && r.value.0 == input[|r.value.1|..]
    ensures r.Some? ==> forall k :: 0 <= k < |r.value.1| ==> IsMnemonicChar(input[k])
    ensures r.Some? ==> |r.value.1| == |input| || !IsMnemonicChar(input[|r.value.1|])
  {
    var m := Span(input, 0, Mnemonic);
    SpanAll(input, 0, Mnemonic);
    if m == 0 then None else Some((input[m..], input[..m]))
  }

  /**
   * `parse_unit`: nom's `take_while` of characters that are neither
   * whitespace nor ':'. Gives (remaining input, unit); the unit may be empty.
   */
  function ParseUnit(input: string): (r: (string, string))
    ensures |r.1| <= |input| && r.1 == input[..|r.1|]
    ensures forall k :: 0 <= k < |r.1| ==> IsUnitChar(input[k])
    ensures |r.1| == |input| || !IsUnitChar(input[|r.1|])
    ensures r.0 == input[|r.1|..]
  {
    var u := Span(input, 0, Unit);
    SpanAll(input, 0, Unit);
    (input[u..], input[..u])
  }

  /**
   * The positions at which the steps of `parse_line_header` stop, each step
   * being the nom parser the source applies to the remaining input:
   *   m   `parse_mnemonic`, the run of mnemonic characters (empty: failure),
   *   d   `space0`,
   *   u   `opt(preceded(char('.'), parse_unit))`: when a '.' is at d, the
   *       unit runs from d + 1 to u; otherwise u is d,
   *   v   `space0`,
   *   p   `take_while(|c| c != ':')`: the value runs from v to p, and p is
   *       the line's end or a ':'.
   */
  datatype Stops = Stops(m: nat, d: nat, u: nat, v: nat, p: nat)

  function HeaderStops(input: string): (s: Stops)
    ensures s.m <= s.d <= s.u <= s.v <= s.p <= |input|
    ensures s.d < s.u ==> input[s.d] == '.'
  {
    var m := Span(input, 0, Mnemonic);
    var d := Span(input, m, SpaceOrTab);
    var u := if d < |input| && input[d] == '.' then Span(input, d + 1, Unit) else d;
    var v := Span(input, u, SpaceOrTab);
    Stops(m, d, u, v, Span(input, v, NotColon))
  }

  /**
   * The item `parse_line_header` builds once its steps stopped at s: the
   * unit is "" without a '.', value and description are trimmed, and the
   * description is what `preceded(char(':'), rest)` leaves after the ':' at
   * p, or "" at the end of the line.
   */
  function HeaderItemAt(input: string, s: Stops): (r: LasItems.HeaderItem)
    requires s.m <= s.d <= s.u <= s.v <= s.p <= |input|
    ensures IsTrimmed(r.value) && IsTrimmed(r.descr)
  {
    var unit := if s.d < s.u then Sub(input, s.d + 1, s.u) else "";
    var descr := if s.p < |input| then Sub(input, s.p + 1, |input|) else "";
    LasItems.NewHeaderItem(Sub(input, 0, s.m), unit, Trim(Sub(input, s.v, s.p)), Trim(descr))
  }

  /** The item built at given stops, field by field. */
  lemma {:induction false} ItemAt(input: string, m: nat, d: nat, u: nat, v: nat, p: nat)
    requires m <= d <= u <= v <= p <= |input|
    ensures HeaderItemAt(input, Stops(m, d, u, v, p)) == LasItems.HeaderItem(
      Sub(input, 0, m),
      if d < u then Sub(input, d + 1, u) else "",
      Trim(Sub(input, v, p)),
      if p < |input| then Trim(Sub(input, p + 1, |input|)) else "")
  {
    assert Trim("") == "";
  }

  /** `parse_line_header`: fails only when the line does not start with a mnemonic character. */
  function ParseLineHeader(input: string): (r: Option<LasItems.HeaderItem>)
    ensures r.Some? <==> input != [] && IsMnemonicChar(input[0])
  {
    var s := HeaderStops(input);
    if s.m == 0 then None else Some(HeaderItemAt(input, s))
  }

  /** `parse_section_title`: after the '~', the rest of the line, trimmed. */
  function ParseSectionTitle(input: string): (r: Option<string>)
    ensures r.Some? <==> StartsWith(input, '~')
  {
    if StartsWith(input, '~') then Some(Trim(input[1..])) else None
  }

  /** `parse_comment`: recognises a line that starts with '#'. */
  function ParseComment(input: string): (r: bool)
    ensures r <==> StartsWith(input, '#')
  {
    StartsWith(input, '#')
  }

  /**
   * `parse_line`: classifies the trimmed line. It never fails; the kind is
   * decided by the first character of the trimmed line alone, and a line
   * that does not start with a mnemonic character is a data line.
   */
  function ParseLine(input: string): (r: Option<LineType>)
    ensures r.Some?
    ensures r.value.Empty? <==> Trim(input) == []
    ensures r.value.Comment? <==> StartsWith(Trim(input), '#')
    ensures r.value.SectionTitle? <==> StartsWith(Trim(input), '~')
    ensures r.value.SectionTitle? ==> r.value.title == Trim(Trim(input)[1..])
    ensures r.value.DataLine? <==> StartsWith(Trim(input), '.') || StartsWith(Trim(input), ':')
    ensures r.value.DataLine? ==> r.value.content == Trim(input)
    ensures r.value.HeaderItem? ==> ParseLineHeader(Trim(input)) == Some(r.value.item)
  {
    var t := Trim(input);
    TrimFacts(input);
    if t == [] then Some(Empty)
    else if StartsWith(t, '#') then
      if ParseComment(t) then Some(Comment) else None
    else if StartsWith(t, '~') then
      match ParseSectionTitle(t)
      case Some(title) => Some(SectionTitle(title))
      case None => None
    else
      match ParseLineHeader(t)
      case Some(item) => Some(HeaderItem(item))
      case None => Some(DataLine(t))
  }


  /** Characters that all belong to cls do not move where a run of cls ends. */
  lemma {:induction false} SpanSkip(s: string, i: nat, j: nat, cls: CharClass)
    requires i <= j <= |s|
    requires forall k :: i <= k < j ==> In(s[k], cls)
    ensures Span(s, i, cls) == Span(s, j, cls)
  {
    var a := Span(s, i, cls);
    SpanAll(s, i, cls);
    SpanUnique(s, j, a, cls);
  }

  /** Leading spaces and tabs of a piece do not change its trimmed form. */
  lemma {:induction false} SpacesTrimmed(s: string, i: nat, j: nat, k: nat)
    requires i <= j <= k <= |s|
    requires forall x :: i <= x < j ==> IsSpaceOrTab(s[x])
    ensures Trim(Sub(s, i, k)) == Trim(Sub(s, j, k))
  {
    var w := Sub(s, i, j);
    assert AllWhitespace(w) by {
      forall x | 0 <= x < |w| ensures IsWhitespace(w[x]) {
        assert IsSpaceOrTab(s[i + x]);
      }
    }
    assert Sub(s, i, k) == w + Sub(s, j, k);
    TrimPadded(w, Sub(s, j, k));
  }

  /**
   * parse_mnemonic and parse_unit read the same runs as the positions
   * parse_line_header works with: the mnemonic ends at m, and the unit after
   * a '.' at d ends at u.
   */
  lemma {:induction false} HeaderParts(input: string, m: nat, d: nat, u: nat)
    requires input != [] && IsMnemonicChar(input[0])
    requires m == Span(input, 0, Mnemonic) && d == Span(input, m, SpaceOrTab)
    requires d < |input| && input[d] == '.' && u == Span(input, d + 1, Unit)
    ensures ParseMnemonic(input) == Some((input[m..], Sub(input, 0, m)))
    ensures ParseUnit(input[d + 1..]).1 == Sub(input, d + 1, u)
  {
    assert input[..m] == Sub(input, 0, m);
    var t := input[d + 1..];
    SpanAll(input, d + 1, Unit);
    assert forall k :: 0 <= k < |t| ==> t[k] == input[d + 1 + k];
    assert u - (d + 1) < |t| ==> t[u - (d + 1)] == input[u];
    SpanUnique(t, 0, u - (d + 1), Unit);
    assert t[..u - (d + 1)] == Sub(input, d + 1, u);
  }

  /** Mnemonic, spaces, '.', unit and spaces contain no ':'. */
  lemma {:induction false} NoColonBefore(input: string, m: nat, d: nat, u: nat, v: nat)
    requires m == Span(input, 0, Mnemonic) && d == Span(input, m, SpaceOrTab)
    requires u == if d < |input| && input[d] == '.' then Span(input, d + 1, Unit) else d
    requires v == Span(input, u, SpaceOrTab)
    ensures forall k :: 0 <= k < v ==> In(input[k], NotColon)
  {
    SpanAll(input, 0, Mnemonic);
    SpanAll(input, m, SpaceOrTab);
    if d < |input| && input[d] == '.' {
      SpanAll(input, d + 1, Unit);
    }
    SpanAll(input, u, SpaceOrTab);
    forall k | 0 <= k < v ensures In(input[k], NotColon) {
      if k < m {
        assert In(input[k], Mnemonic);
      } else if k < d {
        assert In(input[k], SpaceOrTab);
      } else if k == d && d < u {
      } else if k < u {
        assert In(input[k], Unit);
      } else {
        assert In(input[k], SpaceOrTab);
      }
    }
  }

  /**
   * The fields of a header line, located by index: m ends the mnemonic, d
   * ends the spaces after it, u ends the unit when a '.' is at d and is d
   * otherwise, and p is the first ':' of the whole line (or its end). The
   * value is the text from u to that first ':', the description all the
   * text after it, both trimmed; the unit is "" when no '.' follows the
   * mnemonic.
   */
  lemma {:induction false} HeaderFields(input: string, m: nat, d: nat, u: nat, p: nat)
    requires input != [] && IsMnemonicChar(input[0])
    requires m == Span(input, 0, Mnemonic) && d == Span(input, m, SpaceOrTab)
    requires u == if d < |input| && input[d] == '.' then Span(input, d + 1, Unit) else d
    requires p == Span(input, 0, NotColon)
    ensures 0 < m <= d <= u <= p
    ensures ParseLineHeader(input).Some? && ParseLineHeader(input).value.mnemonic == Sub(input, 0, m)
    ensures ParseLineHeader(input).value.unit == if d < |input| && input[d] == '.' then Sub(input, d + 1, u) else ""
    ensures ParseLineHeader(input).value.value == Trim(Sub(input, u, p))
    ensures ParseLineHeader(input).value.descr == if p < |input| then Trim(Sub(input, p + 1, |input|)) else ""
  {
    var dot := d < |input| && input[d] == '.';
    var v := Span(input, u, SpaceOrTab);
    assert HeaderStops(input) == Stops(m, d, u, v, p) by {
      NoColonBefore(input, m, d, u, v);
      SpanSkip(input, 0, v, NotColon);
    }
    assert dot <==> d < u;
    assert Trim(Sub(input, u, p)) == Trim(Sub(input, v, p)) by {
      SpanAll(input, u, SpaceOrTab);
      SpacesTrimmed(input, u, v, p);
    }
    ItemAt(input, m, d, u, v, p);
  }

  /** Trimming keeps a subsequence: it adds no character. */
  lemma {:induction false} TrimAddsNothing(s: string, c: char)
    requires forall k :: 0 <= k < |s| ==> s[k] != c
    ensures forall k :: 0 <= k < |Trim(s)| ==> Trim(s)[k] != c
  {
    var a := TrimSlice(s);
    var t := Trim(s);
    assert forall k :: 0 <= k < |t| ==> t[k] == s[a + k];
  }

  /** The value of a header line never contains ':', because it ends at the first one. */
  lemma {:induction false} HeaderValueHasNoColon(input: string)
    requires ParseLineHeader(input).Some?
    ensures forall k :: 0 <= k < |ParseLineHeader(input).value.value| ==> ParseLineHeader(input).value.value[k] != ':'
  {
    var m := Span(input, 0, Mnemonic);
    var d := Span(input, m, SpaceOrTab);
    var u := if d < |input| && input[d] == '.' then Span(input, d + 1, Unit) else d;
    var p := Span(input, 0, NotColon);
    assert u <= p && ParseLineHeader(input).value.value == Trim(Sub(input, u, p)) by {
      HeaderFields(input, m, d, u, p);
    }
    var w := Sub(input, u, p);
    assert forall k :: 0 <= k < |w| ==> w[k] != ':' by {
      SpanAll(input, 0, NotColon);
      forall k | 0 <= k < |w| ensures w[k] != ':' {
        assert w[k] == input[u + k] && In(input[u + k], NotColon);
      }
    }
    TrimAddsNothing(w, ':');
  }

  /** A header item that a line can carry: what parse_line_header reads back unchanged. */
  ghost predicate Readable(h: LasItems.HeaderItem) {
    && h.mnemonic != []
    && (forall k :: 0 <= k < |h.mnemonic| ==> IsMnemonicChar(h.mnemonic[k]))
    && (forall k :: 0 <= k < |h.unit| ==> IsUnitChar(h.unit[k]))
    && (forall k :: 0 <= k < |h.value| ==> h.value[k] != ':')
    && IsTrimmed(h.value) && IsTrimmed(h.descr)
  }

  /** The layout `MNEM.UNIT VALUE : DESCRIPTION` of a header line in LAS 2.0. */
  function HeaderLine(h: LasItems.HeaderItem): string {
    h.mnemonic + "." + h.unit + " " + h.value + " : " + h.descr
  }

  /**
   * Where the four fields and the separators of a laid-out header line are:
   * the '.' at a, the space after the unit at b, and the ':' at p.
   */
  ghost predicate LaidOut(s: string, h: LasItems.HeaderItem, a: nat, b: nat, p: nat) {
    && a == |h.mnemonic| && b == a + 1 + |h.unit| && p == b + 2 + |h.value|
    && |s| == p + 2 + |h.descr|
    && (forall k :: 0 <= k < a ==> s[k] == h.mnemonic[k])
    && s[a] == '.'
    && (forall k :: a + 1 <= k < b ==> s[k] == h.unit[k - a - 1])
    && s[b] == ' '
    && (forall k :: b + 1 <= k < p - 1 ==> s[k] == h.value[k - b - 1])
    && s[p - 1] == ' ' && s[p] == ':' && s[p + 1] == ' '
    && (forall k :: p + 2 <= k < |s| ==> s[k] == h.descr[k - p - 2])
  }

  lemma {:induction false} HeaderLineLaidOut(h: LasItems.HeaderItem)
    ensures LaidOut(HeaderLine(h), h, |h.mnemonic|, |h.mnemonic| + 1 + |h.unit|, |h.mnemonic| + 3 + |h.unit| + |h.value|)
  {
  }

  /** On a laid-out line the mnemonic ends at the '.', no spaces follow it, and the unit ends at b. */
  lemma {:induction false} LaidOutRuns(s: string, h: LasItems.HeaderItem, a: nat, b: nat, p: nat)
    requires Readable(h) && LaidOut(s, h, a, b, p)
    ensures 0 < a && Span(s, 0, Mnemonic) == a && Span(s, a, SpaceOrTab) == a && Span(s, a + 1, Unit) == b
  {
    assert 0 < a by {
      assert h.mnemonic != [];
    }
    assert forall k :: 0 <= k < a ==> In(s[k], Mnemonic) by {
      forall k | 0 <= k < a ensures In(s[k], Mnemonic) {
        assert IsMnemonicChar(h.mnemonic[k]);
      }
    }
    SpanUnique(s, 0, a, Mnemonic);
    SpanUnique(s, a, a, SpaceOrTab);
    assert forall k :: a + 1 <= k < b ==> In(s[k], Unit) by {
      forall k | a + 1 <= k < b ensures In(s[k], Unit) {
        assert IsUnitChar(h.unit[k - a - 1]);
      }
    }
    SpanUnique(s, a + 1, b, Unit);
  }

  /** On a laid-out line the first ':' is the separator at p. */
  lemma {:induction false} LaidOutFirstColon(s: string, h: LasItems.HeaderItem, a: nat, b: nat, p: nat)
    requires Readable(h) && LaidOut(s, h, a, b, p)
    ensures Span(s, 0, NotColon) == p
  {
    forall k | 0 <= k < p ensures In(s[k], NotColon) {
      if k < a {
        assert IsMnemonicChar(h.mnemonic[k]);
      } else if a + 1 <= k < b {
        assert IsUnitChar(h.unit[k - a - 1]);
      } else if b + 1 <= k < p - 1 {
        assert h.value[k - b - 1] != ':';
      }
    }
    SpanUnique(s, 0, p, NotColon);
  }

  /**
   * The stops parse_line_header finds, given where the runs end: a mnemonic
   * ending at a '.', a unit ending at b, and the first ':' at p.
   */
  lemma {:induction false} LaidOutFields(s: string, a: nat, b: nat, p: nat)
    requires 0 < a < b <= p < |s| && s[a] == '.'
    requires Span(s, 0, Mnemonic) == a && Span(s, a, SpaceOrTab) == a
    requires Span(s, a + 1, Unit) == b && Span(s, 0, NotColon) == p
    ensures ParseLineHeader(s).Some?
    ensures ParseLineHeader(s).value.mnemonic == Sub(s, 0, a) && ParseLineHeader(s).value.unit == Sub(s, a + 1, b)
    ensures ParseLineHeader(s).value.value == Trim(Sub(s, b, p)) && ParseLineHeader(s).value.descr == Trim(Sub(s, p + 1, |s|))
  {
    assert IsMnemonicChar(s[0]);
    HeaderFields(s, a, a, b, p);
  }

  /** The pieces between the stops of a laid-out line are the fields, with their separating spaces. */
  lemma {:induction false} LaidOutPieces(s: string, h: LasItems.HeaderItem, a: nat, b: nat, p: nat)
    requires LaidOut(s, h, a, b, p)
    ensures Sub(s, 0, a) == h.mnemonic && Sub(s, a + 1, b) == h.unit
    ensures Sub(s, b, p) == " " + h.value + " "
    ensures Sub(s, p + 1, |s|) == " " + h.descr + ""
  {
    assert Sub(s, 0, a) == h.mnemonic;
    assert Sub(s, a + 1, b) == h.unit;
    assert Sub(s, b, p) == " " + h.value + " ";
    assert Sub(s, p + 1, |s|) == " " + h.descr + "";
  }

  /** A line laid out as h's fields with their separators reads back as h. */
  lemma {:induction false} ReadLaidOut(s: string, h: LasItems.HeaderItem, a: nat, b: nat, p: nat)
    requires Readable(h) && LaidOut(s, h, a, b, p)
    ensures ParseLineHeader(s) == Some(h)
  {
    assert 0 < a < b <= p < |s| && s[a] == '.';
    assert Span(s, 0, Mnemonic) == a && Span(s, a, SpaceOrTab) == a && Span(s, a + 1, Unit) == b by {
      LaidOutRuns(s, h, a, b, p);
    }
    assert Span(s, 0, NotColon) == p by {
      LaidOutFirstColon(s, h, a, b, p);
    }
    LaidOutFields(s, a, b, p);
    assert ParseLineHeader(s).value.mnemonic == h.mnemonic && ParseLineHeader(s).value.unit == h.unit by {
      LaidOutPieces(s, h, a, b, p);
    }
    assert ParseLineHeader(s).value.value == h.value by {
      LaidOutPieces(s, h, a, b, p);
      TrimSurrounded(" ", h.value, " ");
    }
    assert ParseLineHeader(s).value.descr == h.descr by {
      LaidOutPieces(s, h, a, b, p);
      TrimSurrounded(" ", h.descr, "");
    }
  }

  /** Reading a header line laid out as `MNEM.UNIT VALUE : DESCRIPTION` recovers all four fields. */
  lemma {:induction false} ReadHeaderLine(h: LasItems.HeaderItem)
    requires Readable(h)
    ensures ParseLineHeader(HeaderLine(h)) == Some(h)
  {
    var a := |h.mnemonic|;
    var b := a + 1 + |h.unit|;
    HeaderLineLaidOut(h);
    ReadLaidOut(HeaderLine(h), h, a, b, b + 2 + |h.value|);
  }
}
