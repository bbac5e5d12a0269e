/**
 * The string escaping of PhutilMySQLDatabaseConnection: column names,
 * multi-line comments and the rewriting of an escaped string for use
 * inside a LIKE pattern.
 */
module MysqlEscape {
  import opened Php

  // ---------------------------------------------------------------------
  // Shared facts about one-byte search strings
  // ---------------------------------------------------------------------

  /** One byte is replaced when it is the search byte and kept otherwise. */
  lemma ReplaceOneByte(d: char, c: char, x: string)
    ensures ReplaceAll([d], [c], x) == if d == c then x else [d]
  {
    assert [d][..1] == [d] && [d][1..] == [];
  }

  /** Replacing a one-byte string splits into the first byte's part and the rest's. */
  lemma ReplaceCharCons(s: string, c: char, x: string)
    requires s != []
    ensures ReplaceAll(s, [c], x) == (if s[0] == c then x else [s[0]]) + ReplaceAll(s[1..], [c], x)
  {
    assert s == [s[0]] + s[1..];
    ReplaceCharConcat([s[0]], s[1..], c, x);
    ReplaceOneByte(s[0], c, x);
  }

  /** Replacing a byte the subject does not hold changes nothing. */
  lemma {:induction false} ReplaceCharAbsent(s: string, c: char, x: string)
    requires c !in s
    ensures ReplaceAll(s, [c], x) == s
    decreases |s|
  {
    if s != [] {
      ReplaceCharCons(s, c, x);
      ReplaceCharAbsent(s[1..], c, x);
    }
  }

  /** Every `c` in `s` comes right after an `e`. */
  predicate EscapedBy(s: string, c: char, e: char)
  {
    forall i :: 0 <= i < |s| && s[i] == c ==> 0 < i && s[i - 1] == e
  }

  /** Two escaped texts stay escaped side by side when the second does not start with `c`. */
  lemma EscapedConcat(head: string, rest: string, c: char, e: char)
    requires EscapedBy(head, c, e) && EscapedBy(rest, c, e)
    requires rest == [] || rest[0] != c
    ensures EscapedBy(head + rest, c, e)
  {
    var r := head + rest;
    forall i | 0 <= i < |r| && r[i] == c ensures 0 < i && r[i - 1] == e {
      if i < |head| {
        assert r[i] == head[i];
        assert r[i - 1] == head[i - 1];
      } else {
        assert r[i] == rest[i - |head|];
        assert r[i - 1] == rest[i - 1 - |head|];
      }
    }
  }

  /** Replacing `c` by `e` followed by `c` leaves every `c` escaped by an `e`. */
  lemma {:induction false} ReplaceCharEscapes(s: string, c: char, e: char)
    requires e != c
    ensures EscapedBy(ReplaceAll(s, [c], [e, c]), c, e)
    ensures s != [] ==> ReplaceAll(s, [c], [e, c])[0] != c
    decreases |s|
  {
    if s != [] {
      ReplaceCharCons(s, c, [e, c]);
      ReplaceCharEscapes(s[1..], c, e);
      var head := if s[0] == c then [e, c] else [s[0]];
      EscapedConcat(head, ReplaceAll(s[1..], [c], [e, c]), c, e);
    }
  }

  // ---------------------------------------------------------------------
  // escapeColumnName
  // ---------------------------------------------------------------------

  /** `escapeColumnName($name)`: a backtick, the name with each backtick as backslash-backtick, a backtick. */
  function EscapeColumnName(name: string): string
  {
    "`" + ReplaceAll(name, "`", "\\`") + "`"
  }

  /**
   * The quoted name is the name, one byte longer per backtick, between two
   * backticks; every backtick inside comes right after a backslash.
   */
  lemma EscapeColumnNameShape(name: string)
    ensures var r := EscapeColumnName(name);
      && |r| == |name| + 2 + CountChar(name, '`')
      && r[0] == '`' && r[|r| - 1] == '`'
      && forall i :: 0 < i < |r| - 1 && r[i] == '`' ==> r[i - 1] == '\\'
  {
    var inner := ReplaceAll(name, "`", "\\`");
    ReplaceCharLength(name, '`', "\\`");
    ReplaceCharEscapes(name, '`', '\\');
    var r := EscapeColumnName(name);
    forall i | 0 < i < |r| - 1 && r[i] == '`' ensures r[i - 1] == '\\' {
      assert r[i] == inner[i - 1];
      if i > 1 {
        assert r[i - 1] == inner[i - 2];
      }
    }
  }

  // ---------------------------------------------------------------------
  // How MySQL reads a quoted identifier
  // ---------------------------------------------------------------------

  /**
   * The escaping loses nothing: turning every backslash-backtick of the
   * quoted text back into a backtick, with `str_replace`, gives the name.
   */
  lemma UnescapeColumnName(name: string)
    ensures var r := EscapeColumnName(name);
      ReplaceAll(r[1..|r| - 1], "\\`", "`") == name
  {
    var r := EscapeColumnName(name);
    assert r[1..|r| - 1] == ReplaceAll(name, "`", "\\`");
    UnescapeEscaped(name);
  }

  /** Backslash-backtick back to backtick undoes backtick to backslash-backtick, whatever backslashes the name holds. */
  lemma {:induction false} UnescapeEscaped(name: string)
    ensures ReplaceAll(ReplaceAll(name, "`", "\\`"), "\\`", "`") == name
    decreases |name|
  {
    if name != [] {
      ReplaceCharCons(name, '`', "\\`");
      var t := ReplaceAll(name[1..], "`", "\\`");
      UnescapeEscaped(name[1..]);
      if name[0] == '`' {
        var e := "\\`" + t;
        ReplaceAllHit(e, "\\`", "`");
        assert e[2..] == t;
      } else {
        var e := [name[0]] + t;
        if t != [] {
          ReplaceCharEscapes(name[1..], '`', '\\');
          assert e[..2][1] == t[0] != '`';
        }
        ReplaceAllStep(e, "\\`", "`");
        assert e[1..] == t;
      }
      assert name == [name[0]] + name[1..];
    }
  }

  /**
   * MySQL's reading of the text after an opening backtick: a doubled
   * backtick stands for one backtick, a single backtick closes the
   * identifier; a backslash is an ordinary byte. Gives the identifier and
   * the text after it, or nothing when the identifier is not closed.
   */
  function ReadQuotedBody(t: string): Option<(string, string)>
    decreases |t|
  {
    if t == [] then None
    else if t[0] == '`' then
      if |t| > 1 && t[1] == '`' then
        match ReadQuotedBody(t[2..])
        case None => None
        case Some(read) => Some(("`" + read.0, read.1))
      else Some(([], t[1..]))
    else
      match ReadQuotedBody(t[1..])
      case None => None
      case Some(read) => Some(([t[0]] + read.0, read.1))
  }

  /** A backtick-quoted identifier at the start of `s`, as MySQL reads it. */
  function ReadIdentifier(s: string): Option<(string, string)>
  {
    if s != [] && s[0] == '`' then ReadQuotedBody(s[1..]) else None
  }

  /**
   * The column name ``a`b`` comes out of `escapeColumnName` as
   * ``` `a\`b` ```, which MySQL reads as the identifier `a\` followed by
   * the stray text ``b` ``.
   */
  lemma EscapeColumnNameMisread()
    ensures EscapeColumnName("a`b") == "`a\\`b`"
    ensures ReadIdentifier(EscapeColumnName("a`b")) == Some(("a\\", "b`"))
    ensures ReadIdentifier(EscapeColumnName("a`b")) != Some(("a`b", []))
  {
    ReplaceCharCons("a`b", '`', "\\`");
    ReplaceCharCons("`b", '`', "\\`");
    ReplaceCharCons("b", '`', "\\`");
    assert "a`b"[1..] == "`b" && "`b"[1..] == "b" && "b"[1..] == [];
    var t := "a\\`b`";
    assert EscapeColumnName("a`b")[1..] == t;
    var t1 := t[1..];
    var t2 := t1[1..];
    assert t[0] == 'a' && t1[0] == '\\' && t2 == "`b`";
    assert t2[1] == 'b' && t2[1..] == "b`";
    assert ReadQuotedBody(t2) == Some(([], "b`"));
    var none: string := [];
    assert [t1[0]] + none == [t1[0]];
    assert ReadQuotedBody(t1) == Some(([t1[0]], "b`"));
    assert ReadQuotedBody(t) == Some(([t[0]] + [t1[0]], "b`"));
    assert [t[0]] + [t1[0]] == "a\\";
  }

  /** A column name quoted the way MySQL expects: each backtick doubled. */
  function QuoteIdentifier(name: string): string
  {
    "`" + ReplaceAll(name, "`", "``") + "`"
  }

  /**
   * MySQL reads back exactly the quoted name, and whatever follows it is
   * left over, unless that starts with a backtick (which would pair with
   * the closing one).
   */
  lemma QuoteIdentifierRoundTrip(name: string, rest: string)
    requires rest == [] || rest[0] != '`'
    ensures ReadIdentifier(QuoteIdentifier(name) + rest) == Some((name, rest))
  {
    var s := QuoteIdentifier(name) + rest;
    assert s[1..] == ReplaceAll(name, "`", "``") + "`" + rest;
    QuotedBodyRoundTrip(name, rest);
  }

  lemma {:induction false} QuotedBodyRoundTrip(name: string, rest: string)
    requires rest == [] || rest[0] != '`'
    ensures ReadQuotedBody(ReplaceAll(name, "`", "``") + "`" + rest) == Some((name, rest))
    decreases |name|
  {
    var t := ReplaceAll(name, "`", "``") + "`" + rest;
    if name == [] {
      assert t == "`" + rest;
      assert t[1..] == rest;
    } else {
      ReplaceCharCons(name, '`', "``");
      var tail := ReplaceAll(name[1..], "`", "``") + "`" + rest;
      QuotedBodyRoundTrip(name[1..], rest);
      if name[0] == '`' {
        assert t == "``" + tail;
        ReadDoubledBacktick(name, tail, rest);
      } else {
        assert t == [name[0]] + tail;
        ReadPlainByte(name, tail, rest);
      }
    }
  }

  /** A doubled backtick in front of a body read as the rest of the name is read as a backtick. */
  lemma ReadDoubledBacktick(name: string, tail: string, rest: string)
    requires name != [] && name[0] == '`'
    requires ReadQuotedBody(tail) == Some((name[1..], rest))
    ensures ReadQuotedBody("``" + tail) == Some((name, rest))
  {
    var t := "``" + tail;
    assert t[2..] == tail;
    assert name == "`" + name[1..];
  }

  /** Any other byte in front of a body read as the rest of the name is read as itself. */
  lemma ReadPlainByte(name: string, tail: string, rest: string)
    requires name != [] && name[0] != '`'
    requires ReadQuotedBody(tail) == Some((name[1..], rest))
    ensures ReadQuotedBody([name[0]] + tail) == Some((name, rest))
  {
    var t := [name[0]] + tail;
    assert t[1..] == tail;
    assert name == [name[0]] + name[1..];
  }

  // ---------------------------------------------------------------------
  // escapeMultilineComment
  // ---------------------------------------------------------------------

  /** A byte in 0x20..0x7F: the bytes the comment keeps. */
  predicate Printable(c: char)
  {
    0x20 <= c as int <= 0x7F
  }

  /** `s` without its leading run of other bytes. */
  function DropRun(s: string): (r: string)
    ensures |r| <= |s| && r == s[|s| - |r|..]
    ensures r == [] || Printable(r[0])
    decreases |s|
  {
    if s != [] && !Printable(s[0]) then DropRun(s[1..]) else s
  }

  /** `preg_replace('/[^\x20-\x7F]+/', ' ', $s)`: each maximal run of other bytes becomes one space. */
  function Collapse(s: string): string
    decreases |s|
  {
    if s == [] then []
    else if Printable(s[0]) then [s[0]] + Collapse(s[1..])
    else " " + Collapse(DropRun(s[1..]))
  }

  /** The first byte of a collapsed text is the first byte of the text or a space. */
  lemma CollapseHead(s: string)
    requires s != []
    ensures Collapse(s) != [] && (Collapse(s)[0] == s[0] || Collapse(s)[0] == ' ')
  {
  }

  /** Only bytes in 0x20..0x7F come out. */
  lemma {:induction false} CollapsePrintable(s: string)
    ensures forall i :: 0 <= i < |Collapse(s)| ==> Printable(Collapse(s)[i])
    decreases |s|
  {
    if s != [] {
      var rest := if Printable(s[0]) then s[1..] else DropRun(s[1..]);
      CollapsePrintable(rest);
      var head := if Printable(s[0]) then [s[0]] else " ";
      assert Collapse(s) == head + Collapse(rest);
    }
  }

  /** Text made of such bytes only is left as it is. */
  lemma {:induction false} CollapseKeepsPrintable(s: string)
    requires forall i :: 0 <= i < |s| ==> Printable(s[i])
    ensures Collapse(s) == s
    decreases |s|
  {
    if s != [] {
      CollapseKeepsPrintable(s[1..]);
    }
  }

  /** Collapsing twice is collapsing once. */
  lemma CollapseIdempotent(s: string)
    ensures Collapse(Collapse(s)) == Collapse(s)
  {
    CollapsePrintable(s);
    CollapseKeepsPrintable(Collapse(s));
  }

  /** No byte of `s` lies in 0x20..0x7F. */
  predicate AllOther(s: string)
  {
    forall i :: 0 <= i < |s| ==> !Printable(s[i])
  }

  /** A run of other bytes before printable text (or the end) becomes exactly one space. */
  lemma CollapseRun(run: string, t: string)
    requires run != [] && AllOther(run)
    requires t == [] || Printable(t[0])
    ensures Collapse(run + t) == " " + Collapse(t)
  {
    AllOtherTail(run, t);
    DropRunPrefix(run[1..], t);
  }

  /** A run of other bytes in front of `t` starts with one of them, and the run without it is still one. */
  lemma AllOtherTail(run: string, t: string)
    requires run != [] && AllOther(run)
    ensures (run + t)[0] == run[0] && !Printable(run[0])
    ensures (run + t)[1..] == run[1..] + t
    ensures AllOther(run[1..])
  {
    assert !Printable(run[0]);
    forall i | 0 <= i < |run[1..]| ensures !Printable(run[1..][i]) {
      assert run[1..][i] == run[i + 1];
    }
  }

  lemma {:induction false} DropRunPrefix(run: string, t: string)
    requires AllOther(run)
    requires t == [] || Printable(t[0])
    ensures DropRun(run + t) == t
    decreases |run|
  {
    if run == [] {
      assert run + t == t;
    } else {
      AllOtherTail(run, t);
      DropRunPrefix(run[1..], t);
    }
  }

  /** A byte other than the space that is absent stays absent. */
  lemma {:induction false} CollapseKeepsAbsent(s: string, c: char)
    requires c != ' ' && c !in s
    ensures c !in Collapse(s)
    decreases |s|
  {
    if s != [] {
      if Printable(s[0]) {
        assert forall d :: d in s[1..] ==> d in s;
        CollapseKeepsAbsent(s[1..], c);
      } else {
        var rest := DropRun(s[1..]);
        assert forall d :: d in rest ==> d in s;
        CollapseKeepsAbsent(rest, c);
      }
    }
  }

  /** A missing pair `ab` of bytes other than the space stays missing. */
  lemma {:induction false} CollapseKeepsNoPair(s: string, a: char, b: char)
    requires a != ' ' && b != ' ' && NoPair(s, a, b)
    ensures NoPair(Collapse(s), a, b)
    decreases |s|
  {
    if s != [] {
      NoPairSuffix(s, 1, a, b);
      if Printable(s[0]) {
        CollapseKeepsNoPair(s[1..], a, b);
        CollapsePrintableStep(s, a, b);
      } else {
        var rest := DropRun(s[1..]);
        NoPairSuffix(s[1..], |s[1..]| - |rest|, a, b);
        CollapseKeepsNoPair(rest, a, b);
        assert Collapse(s) == " " + Collapse(rest);
        PairConcat(" ", Collapse(rest), a, b);
      }
    }
  }

  /** A kept first byte adds no pair `ab` in front of the collapsed rest. */
  lemma CollapsePrintableStep(s: string, a: char, b: char)
    requires s != [] && Printable(s[0]) && b != ' ' && NoPair(s, a, b)
    requires NoPair(Collapse(s[1..]), a, b)
    ensures NoPair(Collapse(s), a, b)
  {
    if s[1..] != [] {
      CollapseHead(s[1..]);
      assert s[1..][0] == s[1];
    }
    assert Collapse(s) == [s[0]] + Collapse(s[1..]);
    PairConcat([s[0]], Collapse(s[1..]), a, b);
  }

  /** The first three replacements of `escapeMultilineComment`, in the order of its map. */
  function ReplacePairMarkers(comment: string): string
  {
    var s1 := ReplaceAll(comment, "--", "(DOUBLEDASH)");
    var s2 := ReplaceAll(s1, "*/", "(STARSLASH)");
    ReplaceAll(s2, "//", "(SLASHSLASHL)")
  }

  /** The last three replacements of `escapeMultilineComment`. */
  function ReplaceCharMarkers(s: string): string
  {
    var s4 := ReplaceAll(s, "#", "(HASH)");
    var s5 := ReplaceAll(s4, "!", "(BANG)");
    ReplaceAll(s5, ";", "(SEMICOLON)")
  }

  /** All six replacements. */
  function ReplaceCommentMarkers(comment: string): string
  {
    ReplaceCharMarkers(ReplacePairMarkers(comment))
  }

  /** The text placed inside the comment. */
  function CommentBody(comment: string): string
  {
    Collapse(ReplaceCommentMarkers(comment))
  }

  /** `escapeMultilineComment($comment)`. */
  function EscapeMultilineComment(comment: string): string
  {
    "/* " + CommentBody(comment) + " */"
  }

  /** Nothing that ends a comment, starts a line comment or a statement is left in the body. */
  ghost predicate SafeBody(s: string)
  {
    && NoPair(s, '-', '-') && NoPair(s, '*', '/') && NoPair(s, '/', '/')
    && '#' !in s && '!' !in s && ';' !in s
  }

  /** The three pairs are missing after the first three replacements. */
  lemma ReplacePairMarkersSafe(comment: string)
    ensures var s := ReplacePairMarkers(comment);
      NoPair(s, '-', '-') && NoPair(s, '*', '/') && NoPair(s, '/', '/')
  {
    var s1 := ReplaceAll(comment, "--", "(DOUBLEDASH)");
    var s2 := ReplaceAll(s1, "*/", "(STARSLASH)");
    ReplaceAllRemovesPair(comment, '-', '-', "(DOUBLEDASH)");
    ReplaceAllKeepsNoPair(s1, "*/", "(STARSLASH)", '-', '-');
    ReplaceAllRemovesPair(s1, '*', '/', "(STARSLASH)");
    KeepPairs(s2, "//", "(SLASHSLASHL)");
    ReplaceAllRemovesPair(s2, '/', '/', "(SLASHSLASHL)");
  }

  /** The last three replacements remove `#`, `!`, `;` and put back none of the pairs. */
  lemma ReplaceCharMarkersSafe(s: string)
    requires NoPair(s, '-', '-') && NoPair(s, '*', '/') && NoPair(s, '/', '/')
    ensures SafeBody(ReplaceCharMarkers(s))
  {
    CharMarkersKeepPairs(s);
    CharMarkersRemoved(s);
  }

  /** The last three replacements put back none of the pairs. */
  lemma CharMarkersKeepPairs(s: string)
    requires NoPair(s, '-', '-') && NoPair(s, '*', '/') && NoPair(s, '/', '/')
    ensures var r := ReplaceCharMarkers(s);
      NoPair(r, '-', '-') && NoPair(r, '*', '/') && NoPair(r, '/', '/')
  {
    var s4 := ReplaceAll(s, "#", "(HASH)");
    var s5 := ReplaceAll(s4, "!", "(BANG)");
    KeepPairs(s, "#", "(HASH)");
    KeepPairs(s4, "!", "(BANG)");
    KeepPairs(s5, ";", "(SEMICOLON)");
  }

  /** After the last three replacements none of `#`, `!`, `;` is left. */
  lemma CharMarkersRemoved(s: string)
    ensures var r := ReplaceCharMarkers(s);
      '#' !in r && '!' !in r && ';' !in r
  {
    var s4 := ReplaceAll(s, "#", "(HASH)");
    var s5 := ReplaceAll(s4, "!", "(BANG)");
    ReplaceAllRemovesChar(s, '#', "(HASH)");
    ReplaceAllKeepsAbsent(s4, "!", "(BANG)", '#');
    ReplaceAllKeepsAbsent(s5, ";", "(SEMICOLON)", '#');
    ReplaceAllRemovesChar(s4, '!', "(BANG)");
    ReplaceAllKeepsAbsent(s5, ";", "(SEMICOLON)", '!');
    ReplaceAllRemovesChar(s5, ';', "(SEMICOLON)");
  }

  // After the six replacements the body holds none of the two-byte markers
  // (dash-dash, star-slash, slash-slash) and none of `#`, `!`, `;`.
  lemma ReplaceCommentMarkersSafe(comment: string)
    ensures SafeBody(ReplaceCommentMarkers(comment))
  {
    ReplacePairMarkersSafe(comment);
    ReplaceCharMarkersSafe(ReplacePairMarkers(comment));
  }

  /** The later replacements put back none of the three pairs. */
  lemma KeepPairs(s: string, p: string, x: string)
    requires x != [] && '-' !in x && '*' !in x && '/' !in x
    ensures NoPair(s, '-', '-') ==> NoPair(ReplaceAll(s, p, x), '-', '-')
    ensures NoPair(s, '*', '/') ==> NoPair(ReplaceAll(s, p, x), '*', '/')
    ensures NoPair(s, '/', '/') ==> NoPair(ReplaceAll(s, p, x), '/', '/')
  {
    if NoPair(s, '-', '-') {
      ReplaceAllKeepsNoPair(s, p, x, '-', '-');
    }
    if NoPair(s, '*', '/') {
      ReplaceAllKeepsNoPair(s, p, x, '*', '/');
    }
    if NoPair(s, '/', '/') {
      ReplaceAllKeepsNoPair(s, p, x, '/', '/');
    }
  }

  /** The body is safe and every byte of it lies in 0x20..0x7F. */
  lemma CommentBodySafe(comment: string)
    ensures SafeBody(CommentBody(comment))
    ensures forall i :: 0 <= i < |CommentBody(comment)| ==> Printable(CommentBody(comment)[i])
  {
    var s := ReplaceCommentMarkers(comment);
    ReplaceCommentMarkersSafe(comment);
    CollapseKeepsNoPair(s, '-', '-');
    CollapseKeepsNoPair(s, '*', '/');
    CollapseKeepsNoPair(s, '/', '/');
    CollapseKeepsAbsent(s, '#');
    CollapseKeepsAbsent(s, '!');
    CollapseKeepsAbsent(s, ';');
    CollapsePrintable(s);
  }

  /** Wrapping the body adds no pair `ab` made of bytes other than the space, the opening or the closing pair. */
  lemma WrapKeepsNoPair(body: string, a: char, b: char)
    requires NoPair(body, a, b) && a != ' ' && b != ' ' && !(a == '/' && b == '*') && !(a == '*' && b == '/')
    ensures NoPair("/* " + body + " */", a, b)
  {
    PairConcat("/* ", body, a, b);
    PairConcat("/* " + body, " */", a, b);
  }

  /** Up to its last byte, the wrapped body holds no star-slash. */
  lemma WrapOpenEnd(body: string)
    requires NoPair(body, '*', '/')
    ensures NoPair("/* " + body + " *", '*', '/')
  {
    PairConcat("/* ", body, '*', '/');
    PairConcat("/* " + body, " *", '*', '/');
  }

  /** Wrapping adds only the bytes of the opening and the closing. */
  lemma WrapKeepsAbsent(body: string, c: char)
    requires c !in body && c != '/' && c != '*' && c != ' '
    ensures c !in "/* " + body + " */"
  {
    assert forall d :: d in "/* " + body + " */" ==> d in "/* " || d in body || d in " */";
  }

  // The escaped comment opens with slash-star-space and ends with
  // space-star-slash, and the closing star-slash is the only one in it; it
  // holds no dash-dash, slash-slash, `#`, `!` or `;`.
  lemma EscapeMultilineCommentCloses(comment: string)
    ensures var r := EscapeMultilineComment(comment);
      && r[..3] == "/* " && r[|r| - 3..] == " */"
      && r[|r| - 2..] == "*/" && NoPair(r[..|r| - 1], '*', '/')
      && NoPair(r, '-', '-') && NoPair(r, '/', '/')
      && '#' !in r && '!' !in r && ';' !in r
  {
    var body := CommentBody(comment);
    CommentBodySafe(comment);
    var r := EscapeMultilineComment(comment);
    assert r == "/* " + body + " */";
    assert r[..|r| - 1] == "/* " + body + " *";
    WrapOpenEnd(body);
    WrapKeepsNoPair(body, '-', '-');
    WrapKeepsNoPair(body, '/', '/');
    WrapKeepsAbsent(body, '#');
    WrapKeepsAbsent(body, '!');
    WrapKeepsAbsent(body, ';');
  }

  // ---------------------------------------------------------------------
  // The LIKE rewrite of escapeStringForLikeClause
  // ---------------------------------------------------------------------

  /**
   * The replace chain applied to the already escaped value: `\` to `\\`,
   * then `\\'` back to `\'`, then `_` to `\_` and `%` to `\%`.
   */
  function EscapeForLike(value: string): string
  {
    var quotes := UndoubleQuoted(DoubleBackslashes(value));
    var underscores := ReplaceAll(quotes, "_", "\\_");
    ReplaceAll(underscores, "%", "\\%")
  }

  /**
   * The same rewrite in one pass, byte by byte: a backslash is doubled
   * unless a quote follows it, `_` and `%` get a backslash, every other
   * byte stays.
   */
  function LikeReference(v: string): string
    decreases |v|
  {
    if v == [] then []
    else LikePiece(v) + LikeReference(v[1..])
  }

  /** What the one-pass rewrite makes of the first byte of `v`. */
  function LikePiece(v: string): string
    requires v != []
  {
    if v[0] == '_' then "\\_"
    else if v[0] == '%' then "\\%"
    else UnquotePiece(v)
  }

  /** What the first two steps make of the first byte of `v`: a backslash is doubled unless a quote follows it. */
  function UnquotePiece(v: string): string
    requires v != []
  {
    if v[0] == '\\' then (if |v| > 1 && v[1] == '\'' then "\\" else "\\\\") else [v[0]]
  }

  /** The first two steps of the chain, in one pass. */
  function Unquoted(v: string): string
    decreases |v|
  {
    if v == [] then []
    else UnquotePiece(v) + Unquoted(v[1..])
  }

  /** The first step of the chain: every backslash doubled. */
  function DoubleBackslashes(v: string): string
  {
    ReplaceAll(v, "\\", "\\\\")
  }

  /** The second step of the chain: `\\'` back to `\'`. */
  function UndoubleQuoted(s: string): string
  {
    ReplaceAll(s, "\\\\'", "\\'")
  }

  /** The first byte of the doubled text. */
  lemma DoubleBackslashesCons(v: string)
    requires v != []
    ensures DoubleBackslashes(v) == (if v[0] == '\\' then "\\\\" else [v[0]]) + DoubleBackslashes(v[1..])
  {
    ReplaceCharCons(v, '\\', "\\\\");
  }

  /** A byte other than a backslash passes both steps unchanged. */
  lemma UnquotePlain(v: string)
    requires v != [] && v[0] != '\\'
    ensures UndoubleQuoted(DoubleBackslashes(v)) == [v[0]] + UndoubleQuoted(DoubleBackslashes(v[1..]))
  {
    DoubleBackslashesCons(v);
    UndoubleQuotedCons(v[0], DoubleBackslashes(v[1..]));
  }

  /** A backslash before a quote is doubled, then undoubled with the quote. */
  lemma UnquoteQuote(v: string)
    requires |v| > 1 && v[0] == '\\' && v[1] == '\''
    ensures UndoubleQuoted(DoubleBackslashes(v)) == "\\'" + UndoubleQuoted(DoubleBackslashes(v[2..]))
  {
    var d := DoubleBackslashes(v);
    DoubleBackslashesCons(v);
    DoubleBackslashesCons(v[1..]);
    assert v[1..][1..] == v[2..];
    assert d == "\\\\'" + DoubleBackslashes(v[2..]);
    ReplaceAllHit(d, "\\\\'", "\\'");
    assert d[3..] == DoubleBackslashes(v[2..]);
  }

  /** Where no `\\'` starts, the second step keeps the first byte. */
  lemma UndoubleQuotedCons(c: char, rest: string)
    requires !(c == '\\' && |rest| >= 2 && rest[0] == '\\' && rest[1] == '\'')
    ensures UndoubleQuoted([c] + rest) == [c] + UndoubleQuoted(rest)
  {
    var s := [c] + rest;
    if |s| >= 3 {
      assert s[..3][0] == c && s[..3][1] == rest[0] && s[..3][2] == rest[1];
    }
    assert s[1..] == rest;
    ReplaceAllStep(s, "\\\\'", "\\'");
  }

  /** A backslash not before a quote stays doubled. */
  lemma UnquoteBackslash(v: string)
    requires v != [] && v[0] == '\\' && !(|v| > 1 && v[1] == '\'')
    ensures UndoubleQuoted(DoubleBackslashes(v)) == "\\\\" + UndoubleQuoted(DoubleBackslashes(v[1..]))
  {
    var d1 := DoubleBackslashes(v[1..]);
    DoubleBackslashesCons(v);
    assert DoubleBackslashes(v) == ['\\'] + (['\\'] + d1);
    if v[1..] != [] {
      DoubleBackslashesCons(v[1..]);
      assert v[1..][0] == v[1];
      assert d1[0] == (if v[1] == '\\' then '\\' else v[1]);
      assert d1[0] == '\\' ==> d1[1] == '\\';
    }
    UndoubleQuotedCons('\\', d1);
    UndoubleQuotedCons('\\', ['\\'] + d1);
  }

  /** Doubling every backslash, then turning `\\'` back into `\'`, is the one-pass `Unquoted`. */
  lemma {:induction false} UnquoteDoubled(v: string)
    ensures UndoubleQuoted(DoubleBackslashes(v)) == Unquoted(v)
    decreases |v|
  {
    if v == [] {
    } else if v[0] != '\\' {
      UnquoteDoubled(v[1..]);
      UnquotePlain(v);
    } else if |v| > 1 && v[1] == '\'' {
      UnquoteDoubled(v[2..]);
      UnquoteQuote(v);
      UnquotedQuote(v);
    } else {
      UnquoteDoubled(v[1..]);
      UnquoteBackslash(v);
    }
  }

  /** A backslash and a quote pass together. */
  lemma UnquotedQuote(v: string)
    requires |v| > 1 && v[0] == '\\' && v[1] == '\''
    ensures Unquoted(v) == "\\'" + Unquoted(v[2..])
  {
    var w := v[1..];
    assert w[0] == '\'' && w[1..] == v[2..];
    assert Unquoted(w) == "'" + Unquoted(v[2..]);
    assert Unquoted(v) == "\\" + Unquoted(w);
  }

  /** Escaping `_` and `%` in `Unquoted(v)` gives the one-pass rewrite. */
  lemma {:induction false} EscapeWildcards(v: string)
    ensures ReplaceAll(ReplaceAll(Unquoted(v), "_", "\\_"), "%", "\\%") == LikeReference(v)
    decreases |v|
  {
    if v != [] {
      EscapeWildcards(v[1..]);
      var head := if v[0] == '\\' then (if |v| > 1 && v[1] == '\'' then "\\" else "\\\\") else [v[0]];
      assert Unquoted(v) == head + Unquoted(v[1..]);
      ReplaceCharConcat(head, Unquoted(v[1..]), '_', "\\_");
      ReplaceCharConcat(ReplaceAll(head, "_", "\\_"), ReplaceAll(Unquoted(v[1..]), "_", "\\_"), '%', "\\%");
      if v[0] == '\\' {
        ReplaceCharAbsent(head, '_', "\\_");
        ReplaceCharAbsent(head, '%', "\\%");
      } else {
        ReplaceOneByte(v[0], '_', "\\_");
        if v[0] == '_' {
          ReplaceCharAbsent("\\_", '%', "\\%");
        } else {
          ReplaceOneByte(v[0], '%', "\\%");
        }
      }
    }
  }

  /** The four-step chain is the one-pass rewrite. */
  lemma EscapeForLikeIsReference(value: string)
    ensures EscapeForLike(value) == LikeReference(value)
  {
    UnquoteDoubled(value);
    EscapeWildcards(value);
  }

  /** Every `_` and `%` of the rewrite comes right after a backslash. */
  lemma {:induction false} LikeReferenceEscapes(v: string)
    ensures EscapedBy(LikeReference(v), '_', '\\') && EscapedBy(LikeReference(v), '%', '\\')
    ensures LikeReference(v) != [] ==> LikeReference(v)[0] != '_' && LikeReference(v)[0] != '%'
    decreases |v|
  {
    if v != [] {
      LikeReferenceEscapes(v[1..]);
      var head := LikePiece(v);
      var rest := LikeReference(v[1..]);
      assert EscapedBy(head, '_', '\\') && EscapedBy(head, '%', '\\');
      EscapedConcat(head, rest, '_', '\\');
      EscapedConcat(head, rest, '%', '\\');
    }
  }

  /** The rewrite keeps the number of `_` and of `%`. */
  lemma {:induction false} LikeReferenceCounts(v: string)
    ensures CountChar(LikeReference(v), '_') == CountChar(v, '_')
    ensures CountChar(LikeReference(v), '%') == CountChar(v, '%')
    decreases |v|
  {
    if v != [] {
      LikeReferenceCounts(v[1..]);
      CountCharConcat(LikePiece(v), LikeReference(v[1..]), '_');
      CountCharConcat(LikePiece(v), LikeReference(v[1..]), '%');
    }
  }

  /** So the chain escapes every wildcard and keeps their number. */
  lemma EscapeForLikeWildcards(value: string)
    ensures EscapedBy(EscapeForLike(value), '_', '\\') && EscapedBy(EscapeForLike(value), '%', '\\')
    ensures CountChar(EscapeForLike(value), '_') == CountChar(value, '_')
    ensures CountChar(EscapeForLike(value), '%') == CountChar(value, '%')
  {
    EscapeForLikeIsReference(value);
    LikeReferenceEscapes(value);
    LikeReferenceCounts(value);
  }
}
