/** TEXT values of RFC 5545 (section 3.3.11): escaping, unescaping and lists. */
module ICalText {

  function EscapeChar(c: char): string {
    if c == '\\' then ['\\', '\\']
    else if c == ',' then ['\\', ',']
    else if c == ';' then ['\\', ';']
    else if c == '\n' then ['\\', 'n']
    else [c]
  }

  /** icalEscapeText. */
  function Escape(s: string): string {
    if s == "" then "" else EscapeChar(s[0]) + Escape(s[1..])
  }

  /** What a backslash followed by c stands for. */
  function Resolve(c: char): string {
    if c == ',' || c == ';' || c == '\\' then [c]
    else if c == 'n' || c == 'N' then ['\n']
    else ['\\', c]
  }

  function Unescape(s: string): string {
    if s == "" then ""
    else if s[0] == '\\' && |s| > 1 then Resolve(s[1]) + Unescape(s[2..])
    else [s[0]] + Unescape(s[1..])
  }

  /** The parts of a comma-separated list, from v on, when part has been read of
      the current one and esc says whether a backslash came last. */
  function Split(v: string, part: string, esc: bool): (parts: seq<string>)
    ensures |parts| >= 1
  {
    if v == "" then [part]
    else if esc then Split(v[1..], part + [v[0]], false)
    else if v[0] == '\\' then Split(v[1..], part + [v[0]], true)
    else if v[0] == ',' then [part] + Split(v[1..], "", false)
    else Split(v[1..], part + [v[0]], false)
  }

  function EscapeAll(values: seq<string>): (r: seq<string>)
    ensures |r| == |values|
  {
    seq(|values|, i requires 0 <= i < |values| => Escape(values[i]))
  }

  function UnescapeAll(parts: seq<string>): (r: seq<string>)
    ensures |r| == |parts|
  {
    seq(|parts|, i requires 0 <= i < |parts| => Unescape(parts[i]))
  }

  /** strings.Join(parts, ","). */
  function Join(parts: seq<string>): string {
    if parts == [] then ""
    else if |parts| == 1 then parts[0]
    else parts[0] + "," + Join(parts[1..])
  }

  // ------------------------------------------------------------------------ loops

  /** Unescaping from position i on, one step at a time. */
  lemma UnescapeStep(s: string, i: nat, before: string)
    requires i < |s|
    ensures s[i] == '\\' && i + 1 < |s| ==>
              before + Unescape(s[i..]) == before + Resolve(s[i + 1]) + Unescape(s[i + 2..])
    ensures !(s[i] == '\\' && i + 1 < |s|) ==>
              before + Unescape(s[i..]) == before + [s[i]] + Unescape(s[i + 1..])
  {
    var rest := s[i..];
    assert rest[1..] == s[i + 1..];
    if i + 1 < |s| { assert rest[2..] == s[i + 2..]; }
  }

  /** icalUnescapeText. */
  method IcalUnescapeText(s: string) returns (b: string)
    ensures b == Unescape(s)
  {
    hide Unescape;
    b := "";
    var i := 0;
    Whole(s);
    while i < |s|
      invariant 0 <= i <= |s|
      invariant b + Unescape(s[i..]) == Unescape(s)
    {
      UnescapeStep(s, i, b);
      if s[i] == '\\' && i + 1 < |s| {
        i := i + 1;
        ghost var before := b;
        match s[i]
        case ',' => b := b + [','];
        case ';' => b := b + [';'];
        case '\\' => b := b + ['\\'];
        case 'n' => b := b + ['\n'];
        case 'N' => b := b + ['\n'];
        case _ =>
          b := b + ['\\'];
          b := b + [s[i]];
        assert b == before + Resolve(s[i]);
      } else {
        b := b + [s[i]];
      }
      i := i + 1;
    }
    Whole(s);
  }

  lemma Whole(s: string)
    ensures "" + Unescape(s[0..]) == Unescape(s)
    ensures Unescape(s[|s|..]) == ""
  {
    assert s[0..] == s;
  }

  /** splitICalTextList. */
  method SplitICalTextList(v: string) returns (parts: seq<string>)
    ensures parts == Split(v, "", false)
  {
    parts := [];
    var b := "";
    var esc := false;
    for i := 0 to |v|
      invariant parts + Split(v[i..], b, esc) == Split(v, "", false)
    {
      assert v[i..][1..] == v[i + 1..];
      if esc {
        b := b + [v[i]];
        esc := false;
      } else if v[i] == '\\' {
        b := b + [v[i]];
        esc := true;
      } else if v[i] == ',' {
        assert parts + ([b] + Split(v[i + 1..], "", false)) == parts + [b] + Split(v[i + 1..], "", false);
        parts := parts + [b];
        b := "";
      } else {
        b := b + [v[i]];
      }
    }
    assert v[|v|..] == "";
    parts := parts + [b];
  }

  // --------------------------------------------------------------------- theorems

  lemma UnescapeEscapedChar(c: char, rest: string)
    ensures Unescape(EscapeChar(c) + rest) == [c] + Unescape(rest)
  {
    var first := EscapeChar(c);
    assert (first + rest)[|first|..] == rest;
  }

  /** Unescaping inverts escaping on every string. */
  lemma {:induction false} UnescapeInvertsEscape(s: string)
    ensures Unescape(Escape(s)) == s
  {
    hide EscapeChar;
    if s != "" {
      UnescapeInvertsEscape(s[1..]);
      UnescapeEscapedChar(s[0], Escape(s[1..]));
    }
  }

  lemma EscapedCharIsInOnePart(c: char, rest: string, part: string)
    ensures Split(EscapeChar(c) + rest, part, false) == Split(rest, part + EscapeChar(c), false)
  {
    var first := EscapeChar(c);
    var v := first + rest;
    if |first| == 2 {
      assert v[1..][1..] == rest && v[1..][0] == first[1];
      assert part + [v[0]] + [first[1]] == part + first;
    } else {
      assert v[1..] == rest;
    }
  }

  /** An escaped text runs through the splitter in one piece. */
  lemma {:induction false} EscapedIsOnePart(s: string, rest: string, part: string)
    ensures Split(Escape(s) + rest, part, false) == Split(rest, part + Escape(s), false)
  {
    hide EscapeChar, Split;
    if s == "" {
      assert Escape(s) + rest == rest && part + Escape(s) == part;
    } else {
      var first, more := EscapeChar(s[0]), Escape(s[1..]);
      EscapedCharIsInOnePart(s[0], more + rest, part);
      EscapedIsOnePart(s[1..], rest, part + first);
      assert Escape(s) + rest == first + (more + rest);
      assert part + first + more == part + Escape(s);
    }
  }

  /** The first text of a written list is split off, and the rest is split on its own. */
  lemma FirstPart(first: string, rest: string)
    ensures Split(Escape(first), "", false) == [Escape(first)]
    ensures Split(Escape(first) + ("," + rest), "", false) == [Escape(first)] + Split(rest, "", false)
  {
    hide Escape;
    EscapedIsOnePart(first, "", "");
    EscapedIsOnePart(first, "," + rest, "");
    assert Escape(first) + "" == Escape(first) && "" + Escape(first) == Escape(first);
    assert ("," + rest)[1..] == rest;
  }

  lemma JoinStep(values: seq<string>)
    requires |values| > 1
    ensures Join(EscapeAll(values)) == Escape(values[0]) + ("," + Join(EscapeAll(values[1..])))
    ensures EscapeAll(values) == [Escape(values[0])] + EscapeAll(values[1..])
  {
    hide Escape;
    assert EscapeAll(values)[1..] == EscapeAll(values[1..]);
  }

  lemma {:induction false} SplitInvertsJoin(values: seq<string>)
    requires values != []
    ensures Split(Join(EscapeAll(values)), "", false) == EscapeAll(values)
  {
    hide Escape, Split;
    if |values| == 1 {
      FirstPart(values[0], "");
      assert EscapeAll(values) == [Escape(values[0])];
    } else {
      hide EscapeAll, Join;
      FirstPart(values[0], Join(EscapeAll(values[1..])));
      JoinStep(values);
      SplitInvertsJoin(values[1..]);
    }
  }

  /** A text list survives being written to iCalendar and read back exactly when
      it is not empty. Every list the converter accepts has a value, so all of
      them survive; the empty case is about these functions alone. */
  lemma TextListRoundTrip(values: seq<string>)
    ensures UnescapeAll(Split(Join(EscapeAll(values)), "", false)) == values <==> values != []
  {
    if values != [] {
      SplitInvertsJoin(values);
      forall i | 0 <= i < |values| ensures UnescapeAll(EscapeAll(values))[i] == values[i] {
        UnescapeInvertsEscape(values[i]);
      }
    }
  }

  /** Unescaping, rule by rule: a backslash makes a comma, a semicolon and a
      backslash literal and n or N a line break; before anything else, and at the
      end, it stands for itself, as every other character does. */
  lemma UnescapeMeans(c: char, rest: string)
    ensures Unescape("") == "" && Unescape("\\") == "\\"
    ensures c != '\\' ==> Unescape([c] + rest) == [c] + Unescape(rest)
    ensures c in {',', ';', '\\'} ==> Unescape(['\\', c] + rest) == [c] + Unescape(rest)
    ensures c in {'n', 'N'} ==> Unescape(['\\', c] + rest) == "\n" + Unescape(rest)
    ensures c !in {',', ';', '\\', 'n', 'N'} ==> Unescape(['\\', c] + rest) == ['\\', c] + Unescape(rest)
  {
    assert ([c] + rest)[1..] == rest && (['\\', c] + rest)[2..] == rest;
    assert "\\"[1..] == "";
  }

  /** Nothing is lost by splitting: joining the parts of any value gives it back. */
  lemma {:induction false} JoinInvertsSplit(v: string, part: string, esc: bool)
    ensures Join(Split(v, part, esc)) == part + v
  {
    if v == "" {
      assert part + v == part;
    } else if !esc && v[0] == ',' {
      var rest := Split(v[1..], "", false);
      JoinInvertsSplit(v[1..], "", false);
      assert ([part] + rest)[1..] == rest;
      assert part + "," + ("" + v[1..]) == part + v;
    } else {
      JoinInvertsSplit(v[1..], part + [v[0]], !esc && v[0] == '\\');
      assert part + [v[0]] + v[1..] == part + v;
    }
  }

  /** Reading part leaves the splitter inside one value, after a backslash or not. */
  ghost predicate StaysWhole(part: string, esc: bool) {
    forall rest :: Split(part + rest, "", false) == Split(rest, part, esc)
  }

  lemma StaysWholeWith(part: string, esc: bool, c: char)
    requires StaysWhole(part, esc) && (esc || c != ',')
    ensures StaysWhole(part + [c], !esc && c == '\\')
  {
    forall rest ensures Split(part + [c] + rest, "", false) == Split(rest, part + [c], !esc && c == '\\') {
      assert part + [c] + rest == part + ([c] + rest);
      assert ([c] + rest)[1..] == rest;
    }
  }

  /** And every comma that is not escaped separates: no part can be split again. */
  lemma {:induction false} PartsAreWhole(v: string, part: string, esc: bool)
    requires StaysWhole(part, esc)
    ensures forall p :: p in Split(v, part, esc) ==> Split(p, "", false) == [p]
  {
    if v == "" {
      assert Split(part + "", "", false) == [part] && part + "" == part;
    } else if !esc && v[0] == ',' {
      assert Split(part + "", "", false) == [part] && part + "" == part;
      EmptyStaysWhole();
      PartsAreWhole(v[1..], "", false);
    } else {
      StaysWholeWith(part, esc, v[0]);
      PartsAreWhole(v[1..], part + [v[0]], !esc && v[0] == '\\');
    }
  }

  lemma EmptyStaysWhole()
    ensures StaysWhole("", false)
  {
    forall rest ensures Split("" + rest, "", false) == Split(rest, "", false) {
      assert "" + rest == rest;
    }
  }

  /** Splitting a list yields parts that join to it and cannot be split further. */
  lemma SplitMeans(v: string)
    ensures var parts := Split(v, "", false);
            Join(parts) == v && forall p :: p in parts ==> Split(p, "", false) == [p]
  {
    JoinInvertsSplit(v, "", false);
    assert "" + v == v;
    EmptyStaysWhole();
    PartsAreWhole(v, "", false);
    hide StaysWhole;
  }
}
