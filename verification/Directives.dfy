/** The bracket-aware directive parsers (riescue/dtest_framework/parser.py, lines 1022-1339) against a printer. */
module Directives {
  import opened Wrappers

  // ---------------------------------------------------------------------------------------------
  // str.strip

  /** Python's str.isspace for one character. */
  predicate IsSpace(c: char) {
    var n := c as int;
    || 0x09 <= n <= 0x0d || 0x1c <= n <= 0x20 || n == 0x85 || n == 0xa0 || n == 0x1680 || 0x2000 <= n <= 0x200a
    || n == 0x2028 || n == 0x2029 || n == 0x202f || n == 0x205f || n == 0x3000
  }

  /** The 29 characters it holds for. */
  lemma SpacesAre(c: char)
    ensures IsSpace(c) <==> c in "\t\n\U{b}\U{c}\r\U{1c}\U{1d}\U{1e}\U{1f} " +
                                 "\U{85}\U{a0}\U{1680}\U{2000}\U{2001}\U{2002}\U{2003}\U{2004}\U{2005}\U{2006}" +
                                 "\U{2007}\U{2008}\U{2009}\U{200a}\U{2028}\U{2029}\U{202f}\U{205f}\U{3000}"
  {}

  ghost predicate Blank(s: string) { forall i :: 0 <= i < |s| ==> IsSpace(s[i]) }

  function LStrip(s: string): string { if s != "" && IsSpace(s[0]) then LStrip(s[1..]) else s }

  function RStrip(s: string): string { if s != "" && IsSpace(s[|s| - 1]) then RStrip(s[..|s| - 1]) else s }

  function Strip(s: string): string { RStrip(LStrip(s)) }

  function MapStrip(parts: seq<string>): (r: seq<string>)
    ensures |r| == |parts| && forall i :: 0 <= i < |parts| ==> r[i] == Strip(parts[i])
  {
    seq(|parts|, i requires 0 <= i < |parts| => Strip(parts[i]))
  }

  lemma {:induction false} LStripBlank(a: string, s: string)
    requires Blank(a)
    ensures LStrip(a + s) == LStrip(s)
  {
    if a == "" {
      assert a + s == s;
    } else {
      assert (a + s)[1..] == a[1..] + s;
      LStripBlank(a[1..], s);
    }
  }

  lemma {:induction false} RStripBlank(s: string, b: string)
    requires Blank(b)
    ensures RStrip(s + b) == RStrip(s)
  {
    if b == "" {
      assert s + b == s;
    } else {
      assert (s + b)[..|s + b| - 1] == s + b[..|b| - 1];
      RStripBlank(s, b[..|b| - 1]);
    }
  }

  lemma {:induction false} LStripBefore(s: string, b: string)
    requires Blank(b)
    ensures RStrip(LStrip(s + b)) == RStrip(LStrip(s))
  {
    if s == "" {
      assert s + b == b == b + "";
      LStripBlank(b, "");
    } else if IsSpace(s[0]) {
      assert (s + b)[1..] == s[1..] + b;
      LStripBefore(s[1..], b);
    } else {
      RStripBlank(s, b);
    }
  }

  lemma StripPadded(a: string, s: string, b: string)
    requires Blank(a) && Blank(b)
    ensures Strip(a + s + b) == Strip(s)
  {
    assert a + s + b == a + (s + b);
    LStripBlank(a, s + b);
    LStripBefore(s, b);
  }

  lemma {:induction false} LStripParts(s: string) returns (a: string)
    ensures Blank(a) && s == a + LStrip(s)
  {
    if s != "" && IsSpace(s[0]) {
      a := LStripParts(s[1..]);
      a := [s[0]] + a;
    } else {
      a := "";
    }
  }

  lemma {:induction false} RStripParts(s: string) returns (b: string)
    ensures Blank(b) && s == RStrip(s) + b
  {
    if s != "" && IsSpace(s[|s| - 1]) {
      b := RStripParts(s[..|s| - 1]);
      b := b + [s[|s| - 1]];
    } else {
      b := "";
    }
  }

  lemma StripParts(s: string) returns (a: string, b: string)
    ensures Blank(a) && Blank(b) && s == a + Strip(s) + b
  {
    a := LStripParts(s);
    b := RStripParts(LStrip(s));
  }

  lemma StripAgain(s: string)
    ensures Strip(Strip(s)) == Strip(s)
  {
    var a, b := StripParts(s);
    StripPadded(a, Strip(s), b);
  }

  // ---------------------------------------------------------------------------------------------
  // Nesting levels. Each parser counts its own brackets; only the argument parser knows quotes.

  datatype Style = Args | List | Combo | Braces

  datatype Level = Level(depth: int, quoted: bool)

  predicate Opens(style: Style, c: char) {
    match style
    case List => c == '['
    case Braces => c == '{'
    case _ => c == '[' || c == '{'
  }

  predicate Closes(style: Style, c: char) {
    match style
    case List => c == ']'
    case Braces => c == '}'
    case _ => c == ']' || c == '}'
  }

  predicate Quote(c: char) { c == '"' || c == '\'' }

  function Step(style: Style, level: Level, c: char): Level {
    if style == Args && Quote(c) then level.(quoted := !level.quoted)
    else if level.quoted then level
    else if Opens(style, c) then level.(depth := level.depth + 1)
    else if Closes(style, c) then level.(depth := level.depth - 1)
    else level
  }

  /** The level after the first n characters. */
  function LevelTo(style: Style, s: string, n: nat): (level: Level)
    requires n <= |s|
    ensures style != Args ==> !level.quoted
  {
    if n == 0 then Level(0, false) else Step(style, LevelTo(style, s, n - 1), s[n - 1])
  }

  function LevelOf(style: Style, s: string): Level { LevelTo(style, s, |s|) }

  predicate Top(level: Level) { level == Level(0, false) }

  lemma {:induction false} LevelPrefix(style: Style, s: string, t: string, n: nat)
    requires n <= |s| && n <= |t| && forall i :: 0 <= i < n ==> s[i] == t[i]
    ensures LevelTo(style, s, n) == LevelTo(style, t, n)
  {
    if n > 0 { LevelPrefix(style, s, t, n - 1); }
  }

  lemma LevelSnoc(style: Style, s: string, c: char)
    ensures LevelOf(style, s + [c]) == Step(style, LevelOf(style, s), c)
  {
    LevelPrefix(style, s + [c], s, |s|);
  }

  /** Reading more text after `a` shifts the depths by the depth `a` ends at. */
  lemma {:induction false} ShiftTo(style: Style, a: string, s: string, n: nat)
    requires n <= |s| && !LevelOf(style, a).quoted
    ensures LevelTo(style, a + s, |a| + n) ==
            Level(LevelOf(style, a).depth + LevelTo(style, s, n).depth, LevelTo(style, s, n).quoted)
  {
    if n == 0 { LevelPrefix(style, a + s, a, |a|); } else { ShiftTo(style, a, s, n - 1); }
  }

  lemma Shift(style: Style, a: string, s: string)
    requires !LevelOf(style, a).quoted
    ensures LevelOf(style, a + s) == Level(LevelOf(style, a).depth + LevelOf(style, s).depth, LevelOf(style, s).quoted)
  {
    ShiftTo(style, a, s, |s|);
  }

  lemma {:induction false} BlankLevel(style: Style, s: string, n: nat)
    requires Blank(s) && n <= |s|
    ensures Top(LevelTo(style, s, n))
  {
    if n > 0 { BlankLevel(style, s, n - 1); }
  }

  /** How often c stands among the first n characters. */
  function Count(c: char, s: string, n: nat): nat
    requires n <= |s|
  {
    if n == 0 then 0 else Count(c, s, n - 1) + if s[n - 1] == c then 1 else 0
  }

  /** The level in terms of the text: inside quotes after an odd number of quote characters, in the argument parser
      only; and as deep as more brackets opened than closed, each parser counting its own, and the argument parser none
      between quotes. */
  lemma {:induction false} LevelMeaning(style: Style, s: string, n: nat)
    requires n <= |s|
    ensures var level, square, curly := LevelTo(style, s, n), Count('[', s, n) - Count(']', s, n),
                                        Count('{', s, n) - Count('}', s, n);
            var quotes := Count('"', s, n) + Count('\'', s, n);
            && (level.quoted <==> style == Args && quotes % 2 == 1)
            && (style == List ==> level.depth == square)
            && (style == Braces ==> level.depth == curly)
            && (style == Combo ==> level.depth == square + curly)
            && (style == Args && quotes == 0 ==> level.depth == square + curly)
  {
    if n > 0 { LevelMeaning(style, s, n - 1); }
  }

  /** No quote character. */
  ghost predicate Unquoted(t: string) { forall i :: 0 <= i < |t| ==> t[i] != '"' && t[i] != '\'' }

  /** Text after an opening quote stays between quotes at the depth of the text before, whatever brackets it holds. */
  lemma {:induction false} InsideQuotes(before: string, q: char, t: string, n: nat)
    requires (q == '"' || q == '\'') && Unquoted(t) && n <= |t| && !LevelOf(Args, before).quoted
    ensures LevelTo(Args, before + [q] + t, |before| + 1 + n) == Level(LevelOf(Args, before).depth, true)
  {
    var all := before + [q] + t;
    if n == 0 {
      LevelPrefix(Args, all, before, |before|);
    } else {
      InsideQuotes(before, q, t, n - 1);
      assert all[|before| + 1 + n - 1] == t[n - 1];
    }
  }

  /** And a closing quote, which may be the other one, restores the level. */
  lemma AfterQuotes(before: string, q: char, t: string, r: char)
    requires (q == '"' || q == '\'') && (r == '"' || r == '\'') && Unquoted(t) && !LevelOf(Args, before).quoted
    ensures LevelOf(Args, before + [q] + t + [r]) == LevelOf(Args, before)
  {
    InsideQuotes(before, q, t, |t|);
    LevelSnoc(Args, before + [q] + t, r);
  }

  // ---------------------------------------------------------------------------------------------
  // Cutting a text at its top-level separators

  /** A text cut at separators: the pieces before each one, and the piece after the last. */
  datatype Cut = Cut(done: seq<string>, open: string)

  /** The cut of the first n characters. */
  function SplitTo(style: Style, sep: char, s: string, n: nat): Cut
    requires n <= |s|
  {
    if n == 0 then Cut([], "") else
      var cut, c := SplitTo(style, sep, s, n - 1), s[n - 1];
      if c == sep && Top(LevelTo(style, s, n - 1)) then Cut(cut.done + [cut.open], "")
      else Cut(cut.done, cut.open + [c])
  }

  function Split(style: Style, sep: char, s: string): Cut { SplitTo(style, sep, s, |s|) }

  function JoinDone(sep: char, done: seq<string>): string {
    if done == [] then "" else JoinDone(sep, done[..|done| - 1]) + done[|done| - 1] + [sep]
  }

  function Join(sep: char, cut: Cut): string { JoinDone(sep, cut.done) + cut.open }

  predicate Separator(c: char) { c == ',' || c == '=' }

  ghost predicate TopAt(style: Style, s: string, i: nat)
    requires i <= |s|
  {
    Top(LevelTo(style, s, i))
  }

  /** No separator of s stands at top level. */
  ghost predicate Whole(style: Style, sep: char, s: string) {
    forall i {:trigger TopAt(style, s, i)} :: 0 <= i < |s| && s[i] == sep ==> !TopAt(style, s, i)
  }

  /** A piece that can stand before a separator. */
  ghost predicate Closed(style: Style, sep: char, s: string) { Whole(style, sep, s) && Top(LevelOf(style, s)) }

  /** Pieces that can be told apart again. */
  ghost predicate Pieces(style: Style, sep: char, cut: Cut) {
    (forall i :: 0 <= i < |cut.done| ==> Closed(style, sep, cut.done[i])) && Whole(style, sep, cut.open)
  }

  lemma {:induction false} SplitPrefix(style: Style, sep: char, s: string, t: string, n: nat)
    requires n <= |s| && n <= |t| && forall i :: 0 <= i < n ==> s[i] == t[i]
    ensures SplitTo(style, sep, s, n) == SplitTo(style, sep, t, n)
  {
    if n > 0 {
      SplitPrefix(style, sep, s, t, n - 1);
      LevelPrefix(style, s, t, n - 1);
    }
  }

  lemma SplitSnoc(style: Style, sep: char, s: string, c: char)
    ensures Split(style, sep, s + [c]) ==
            var cut := Split(style, sep, s);
            if c == sep && Top(LevelOf(style, s)) then Cut(cut.done + [cut.open], "") else Cut(cut.done, cut.open + [c])
  {
    SplitPrefix(style, sep, s + [c], s, |s|);
    LevelPrefix(style, s + [c], s, |s|);
  }

  lemma WholeSnoc(style: Style, sep: char, s: string, c: char)
    ensures Whole(style, sep, s + [c]) <==> Whole(style, sep, s) && !(c == sep && Top(LevelOf(style, s)))
  {
    var t := s + [c];
    forall i | 0 <= i <= |s| ensures TopAt(style, t, i) == TopAt(style, s, i) { LevelPrefix(style, t, s, i); }
    if Whole(style, sep, t) {
      assert TopAt(style, t, |s|) == TopAt(style, s, |s|);
      forall i | 0 <= i < |s| && s[i] == sep ensures !TopAt(style, s, i) {
        assert TopAt(style, t, i) == TopAt(style, s, i);
      }
    }
  }

  lemma JoinSnoc(sep: char, cut: Cut, c: char)
    ensures Join(sep, Cut(cut.done, cut.open + [c])) == Join(sep, cut) + [c]
    ensures Join(sep, Cut(cut.done + [cut.open], "")) == Join(sep, cut) + [sep]
  {
    assert (cut.done + [cut.open])[..|cut.done|] == cut.done;
    assert JoinDone(sep, cut.done) + (cut.open + [c]) == Join(sep, cut) + [c];
  }

  lemma PiecesSnoc(style: Style, sep: char, cut: Cut, c: char)
    requires Pieces(style, sep, cut)
    ensures if c == sep && Top(LevelOf(style, cut.open)) then Pieces(style, sep, Cut(cut.done + [cut.open], ""))
            else Pieces(style, sep, Cut(cut.done, cut.open + [c]))
  {
    WholeSnoc(style, sep, cut.open, c);
  }

  /** The cut pieces are pieces of the text: joined they give it back, and the last one ends at its level. */
  lemma {:induction false} SplitSound(style: Style, sep: char, s: string)
    requires Separator(sep)
    ensures SoundCut(style, sep, s, Split(style, sep, s))
  {
    if s != "" {
      SplitSound(style, sep, s[..|s| - 1]);
      assert s == s[..|s| - 1] + [s[|s| - 1]];
      SoundSnoc(style, sep, s[..|s| - 1], s[|s| - 1]);
    }
  }

  lemma SoundSnoc(style: Style, sep: char, s: string, c: char)
    requires Separator(sep) && SoundCut(style, sep, s, Split(style, sep, s))
    ensures SoundCut(style, sep, s + [c], Split(style, sep, s + [c]))
  {
    var cut := Split(style, sep, s);
    SplitSnoc(style, sep, s, c);
    PiecesSnoc(style, sep, cut, c);
    LevelSnoc(style, s, c);
    if c == sep && Top(LevelOf(style, s)) {
      SoundEnd(style, sep, s, cut);
    } else {
      JoinSnoc(sep, cut, c);
      LevelSnoc(style, cut.open, c);
    }
  }

  lemma SoundEnd(style: Style, sep: char, s: string, cut: Cut)
    requires Separator(sep) && SoundCut(style, sep, s, cut) && Top(LevelOf(style, s))
    ensures SoundCut(style, sep, s + [sep], Cut(cut.done + [cut.open], ""))
  {
    PiecesSnoc(style, sep, cut, sep);
    JoinSnoc(sep, cut, sep);
    LevelSnoc(style, s, sep);
  }

  ghost predicate SoundCut(style: Style, sep: char, s: string, cut: Cut) {
    Pieces(style, sep, cut) && Join(sep, cut) == s && LevelOf(style, cut.open) == LevelOf(style, s)
  }

  /** ... and they are the only pieces that do. */
  lemma {:induction false} SplitUnique(style: Style, sep: char, cut: Cut)
    requires Separator(sep) && Pieces(style, sep, cut)
    ensures Split(style, sep, Join(sep, cut)) == cut
    decreases |cut.done|, |cut.open|
  {
    var done, open := cut.done, cut.open;
    if open != "" {
      var before, c := Cut(done, open[..|open| - 1]), open[|open| - 1];
      assert open == before.open + [c];
      WholeSnoc(style, sep, before.open, c);
      SplitUnique(style, sep, before);
      var text := Join(sep, before);
      SplitSound(style, sep, text);
      JoinSnoc(sep, before, c);
      SplitSnoc(style, sep, text, c);
    } else if done != [] {
      var before := Cut(done[..|done| - 1], done[|done| - 1]);
      assert done == before.done + [before.open];
      SplitUnique(style, sep, before);
      var text := Join(sep, before);
      SplitSound(style, sep, text);
      JoinSnoc(sep, before, sep);
      SplitSnoc(style, sep, text, sep);
    }
  }

  /** So cutting undoes joining for exactly the pieces that can be told apart. */
  lemma CutUndoesJoinIff(style: Style, sep: char, cut: Cut)
    requires Separator(sep)
    ensures Split(style, sep, Join(sep, cut)) == cut <==> Pieces(style, sep, cut)
  {
    SplitSound(style, sep, Join(sep, cut));
    if Pieces(style, sep, cut) { SplitUnique(style, sep, cut); }
  }

  // Blanks around the text end up in the first and the last piece.

  function PadFirst(a: string, cut: Cut): Cut {
    if cut.done == [] then Cut([], a + cut.open) else Cut([a + cut.done[0]] + cut.done[1..], cut.open)
  }

  function StripCut(cut: Cut): Cut { Cut(MapStrip(cut.done), Strip(cut.open)) }

  lemma {:induction false} SplitBlankAfter(style: Style, sep: char, s: string, b: string)
    requires Separator(sep) && Blank(b)
    ensures var cut := Split(style, sep, s);
            Split(style, sep, s + b) == Cut(cut.done, cut.open + b)
  {
    var cut := Split(style, sep, s);
    if b == "" {
      assert s + b == s && cut.open + b == cut.open;
    } else {
      var b', c := b[..|b| - 1], b[|b| - 1];
      SplitBlankAfter(style, sep, s, b');
      assert s + b == (s + b') + [c] && cut.open + b == (cut.open + b') + [c];
      SplitSnoc(style, sep, s + b', c);
    }
  }

  lemma {:induction false} SplitBlankBefore(style: Style, sep: char, a: string, s: string)
    requires Separator(sep) && Blank(a)
    ensures Split(style, sep, a + s) == PadFirst(a, Split(style, sep, s))
  {
    if s == "" {
      SplitBlankAfter(style, sep, "", a);
      assert a + s == "" + a;
    } else {
      var s', c := s[..|s| - 1], s[|s| - 1];
      assert s == s' + [c] && a + s == (a + s') + [c];
      SplitBlankBefore(style, sep, a, s');
      BlankLevel(style, a, |a|);
      Shift(style, a, s');
      SplitSnoc(style, sep, a + s', c);
      SplitSnoc(style, sep, s', c);
      PadFirstSnoc(a, Split(style, sep, s'), c);
    }
  }

  lemma PadFirstSnoc(a: string, cut: Cut, c: char)
    ensures var padded := PadFirst(a, cut);
            && Cut(padded.done + [padded.open], "") == PadFirst(a, Cut(cut.done + [cut.open], ""))
            && Cut(padded.done, padded.open + [c]) == PadFirst(a, Cut(cut.done, cut.open + [c]))
  {
    assert (a + cut.open) + [c] == a + (cut.open + [c]);
  }

  /** ... so they change no stripped piece. */
  lemma SplitPadded(style: Style, sep: char, a: string, s: string, b: string)
    requires Separator(sep) && Blank(a) && Blank(b)
    ensures StripCut(Split(style, sep, a + s + b)) == StripCut(Split(style, sep, s))
  {
    SplitBlankAfter(style, sep, a + s, b);
    SplitBlankBefore(style, sep, a, s);
    StripCutPadded(a, Split(style, sep, s), b);
  }

  lemma StripCutPadded(a: string, cut: Cut, b: string)
    requires Blank(a) && Blank(b)
    ensures var padded := PadFirst(a, cut);
            StripCut(Cut(padded.done, padded.open + b)) == StripCut(cut)
  {
    var padded := PadFirst(a, cut);
    if cut.done == [] {
      StripPadded(a, cut.open, b);
    } else {
      assert "" + cut.open + b == padded.open + b && a + cut.done[0] + "" == padded.done[0];
      StripPadded("", cut.open, b);
      StripPadded(a, cut.done[0], "");
    }
  }

  lemma SplitStripped(style: Style, sep: char, s: string)
    requires Separator(sep)
    ensures StripCut(Split(style, sep, Strip(s))) == StripCut(Split(style, sep, s))
  {
    var a, b := StripParts(s);
    SplitPadded(style, sep, a, Strip(s), b);
  }

  // ---------------------------------------------------------------------------------------------
  // The parsers

  /** The stripped items of a cut text; an empty last one is dropped. */
  function Items(cut: Cut): seq<string> {
    MapStrip(cut.done) + if Strip(cut.open) == "" then [] else [Strip(cut.open)]
  }

  predicate Enclosed(s: string, open: char, close: char) { |s| > 0 && s[0] == open && s[|s| - 1] == close }

  /** What _parse_list means. */
  ghost function ListOf(value: string): seq<string> {
    var v := Strip(value);
    if !Enclosed(v, '[', ']') then [v] else Items(Split(List, ',', v[1..|v| - 1]))
  }

  /** One argument means its last `=`: the key is what stands before it, back to the `=` before that. */
  ghost function Assign(args: map<string, string>, piece: string): map<string, string> {
    Enter(args, Split(Args, '=', piece))
  }

  ghost function Enter(args: map<string, string>, fields: Cut): map<string, string> {
    if fields.done == [] then args else
      var key := Strip(fields.done[|fields.done| - 1]);
      if key == "" then args else args[key := Strip(fields.open)]
  }

  ghost function AssignAll(pieces: seq<string>): map<string, string> {
    if pieces == [] then map[] else Assign(AssignAll(pieces[..|pieces| - 1]), pieces[|pieces| - 1])
  }

  /** What _parse_directive_args means: one assignment for each top-level piece, later ones winning. */
  ghost function ArgsOf(s: string): map<string, string> {
    var cut := Split(Args, ',', s);
    Assign(AssignAll(cut.done), cut.open)
  }

  /** The index of the first c, or the length. */
  function Find(c: char, s: string): (i: nat)
    ensures i <= |s| && c !in s[..i] && (i < |s| ==> s[i] == c)
  {
    if s == "" || s[0] == c then 0 else
      var i := Find(c, s[1..]);
      assert s[..i + 1] == [s[0]] + s[1..][..i];
      i + 1
  }

  /** One pair of a combination is cut at its first `=`, wherever that stands. */
  function Put(combo: map<string, string>, pair: string): map<string, string> {
    var i := Find('=', pair);
    if i < |pair| then combo[Strip(pair[..i]) := Strip(pair[i + 1..])] else combo
  }

  function PutAll(pairs: seq<string>): map<string, string> {
    if pairs == [] then map[] else Put(PutAll(pairs[..|pairs| - 1]), pairs[|pairs| - 1])
  }

  /** What _parse_combo_dict means. */
  ghost function ComboOf(combo: string): map<string, string> {
    var v := Strip(combo);
    if !Enclosed(v, '{', '}') then map[] else PutAll(Items(Split(Combo, ',', v[1..|v| - 1])))
  }

  predicate Skipped(c: char) { c == ',' || c == ' ' || c == '\t' }

  /** The texts up to each return to brace depth 0 in the first n characters, and what is left over. */
  ghost function GroupsTo(s: string, n: nat): Cut
    requires n <= |s|
  {
    if n == 0 then Cut([], "") else
      var cut, c, depth := GroupsTo(s, n - 1), s[n - 1], LevelTo(Braces, s, n - 1).depth;
      if c == '}' && depth == 1 then Cut(cut.done + [cut.open + [c]], "")
      else if depth == 0 && Skipped(c) then cut
      else Cut(cut.done, cut.open + [c])
  }

  ghost function Groups(s: string): Cut { GroupsTo(s, |s|) }

  ghost function NonEmpty(maps: seq<map<string, string>>): seq<map<string, string>> {
    if maps == [] then [] else
      NonEmpty(maps[..|maps| - 1]) + if maps[|maps| - 1] == map[] then [] else [maps[|maps| - 1]]
  }

  /** Nothing is dropped exactly when no map is empty. */
  lemma {:induction false} NonEmptyKeepsIff(maps: seq<map<string, string>>)
    ensures |NonEmpty(maps)| <= |maps|
    ensures NonEmpty(maps) == maps <==> forall i :: 0 <= i < |maps| ==> maps[i] != map[]
  {
    if maps != [] {
      var init, last := maps[..|maps| - 1], maps[|maps| - 1];
      NonEmptyKeepsIff(init);
      assert maps == init + [last];
    }
  }

  ghost function ComboMaps(groups: seq<string>): seq<map<string, string>> {
    seq(|groups|, i requires 0 <= i < |groups| => ComboOf(groups[i]))
  }

  /** What _parse_combinations means: the combinations that are not empty. */
  ghost function CombosOf(value: string): seq<map<string, string>> {
    var v := Strip(value);
    if !Enclosed(v, '[', ']') then [] else NonEmpty(ComboMaps(Groups(Strip(v[1..|v| - 1])).done))
  }

  lemma AssignPadded(args: map<string, string>, a: string, piece: string, b: string)
    requires Blank(a) && Blank(b)
    ensures Assign(args, a + piece + b) == Assign(args, piece)
    ensures Assign(args, a + piece) == Assign(args, piece)
    ensures Assign(args, piece + b) == Assign(args, piece)
  {
    EnterPadded(args, a, piece, b);
    EnterPadded(args, a, piece, "");
    EnterPadded(args, "", piece, b);
    assert a + piece + "" == a + piece && "" + piece + b == piece + b;
  }

  lemma EnterPadded(args: map<string, string>, a: string, piece: string, b: string)
    requires Blank(a) && Blank(b)
    ensures Assign(args, a + piece + b) == Assign(args, piece)
  {
    SplitPadded(Args, '=', a, piece, b);
    EnterStripped(args, Split(Args, '=', a + piece + b));
    EnterStripped(args, Split(Args, '=', piece));
  }

  /** Entering an argument strips its fields. */
  lemma EnterStripped(args: map<string, string>, fields: Cut)
    ensures Enter(args, fields) == Enter(args, StripCut(fields))
  {
    StripAgain(fields.open);
    if fields.done != [] { StripAgain(fields.done[|fields.done| - 1]); }
  }

  lemma AssignSnoc(pieces: seq<string>, piece: string)
    ensures AssignAll(pieces + [piece]) == Assign(AssignAll(pieces), piece)
  {
    assert (pieces + [piece])[..|pieces|] == pieces;
  }

  lemma {:induction false} AssignAllPadded(padded: seq<string>, pieces: seq<string>)
    requires |padded| == |pieces| && forall i :: 0 <= i < |pieces| ==> SameFields(padded[i], pieces[i])
    ensures AssignAll(padded) == AssignAll(pieces)
  {
    if pieces != [] {
      var n := |pieces| - 1;
      AssignAllPadded(padded[..n], pieces[..n]);
      EnterStripped(AssignAll(pieces[..n]), Split(Args, '=', padded[n]));
      EnterStripped(AssignAll(pieces[..n]), Split(Args, '=', pieces[n]));
      assert SameFields(padded[n], pieces[n]);
    }
  }

  ghost predicate SameFields(a: string, b: string) { StripCut(Split(Args, '=', a)) == StripCut(Split(Args, '=', b)) }

  lemma ArgsOfStripped(s: string)
    ensures ArgsOf(Strip(s)) == ArgsOf(s)
  {
    var a, b := StripParts(s);
    SplitBlankAfter(Args, ',', a + Strip(s), b);
    SplitBlankBefore(Args, ',', a, Strip(s));
    AssignCutPadded(a, Split(Args, ',', Strip(s)), b);
  }

  lemma AssignCutPadded(a: string, cut: Cut, b: string)
    requires Blank(a) && Blank(b)
    ensures var padded := PadFirst(a, cut);
            Assign(AssignAll(padded.done), padded.open + b) == Assign(AssignAll(cut.done), cut.open)
  {
    AssignPadded(AssignAll(cut.done), a, cut.open, b);
    if cut.done != [] {
      var padded := PadFirst(a, cut).done;
      assert a + cut.done[0] + "" == a + cut.done[0];
      SplitPadded(Args, '=', a, cut.done[0], "");
      assert forall i :: 1 <= i < |padded| ==> padded[i] == cut.done[i];
      AssignAllPadded(padded, cut.done);
    }
  }

  /** The argument parser's variables. */
  datatype Reading = Reading(args: map<string, string>, key: Option<string>, value: string)

  /** The variables between pieces and inside one: the pieces before are assigned, and of this one the last two
      fields are held. */
  ghost function ReadCut(cut: Cut): Reading {
    var fields := Split(Args, '=', cut.open);
    var key := if fields.done == [] then None else Some(Strip(fields.done[|fields.done| - 1]));
    Reading(AssignAll(cut.done), key, fields.open)
  }

  ghost function Ended(r: Reading): map<string, string> {
    if r.key.Some? && r.key.value != "" then r.args[r.key.value := Strip(r.value)] else r.args
  }

  ghost function Advance(r: Reading, c: char, top: bool): Reading {
    if c == ',' && top then Reading(Ended(r), None, "")
    else if c == '=' && top then Reading(r.args, Some(Strip(r.value)), "")
    else Reading(r.args, r.key, r.value + [c])
  }

  lemma ReadEnd(cut: Cut)
    ensures ReadCut(Cut(cut.done + [cut.open], "")) == Reading(Ended(ReadCut(cut)), None, "")
  {
    AssignSnoc(cut.done, cut.open);
  }

  lemma ReadMore(cut: Cut, c: char)
    ensures var r := ReadCut(cut);
            ReadCut(Cut(cut.done, cut.open + [c])) ==
            if c == '=' && Top(LevelOf(Args, cut.open)) then Reading(r.args, Some(Strip(r.value)), "")
            else Reading(r.args, r.key, r.value + [c])
  {
    SplitSnoc(Args, '=', cut.open, c);
  }

  lemma ReadNext(s: string, n: nat)
    requires n < |s|
    ensures ReadCut(SplitTo(Args, ',', s, n + 1)) == Advance(ReadCut(SplitTo(Args, ',', s, n)), s[n], TopAt(Args, s, n))
  {
    var cut := SplitTo(Args, ',', s, n);
    assert Top(LevelOf(Args, cut.open)) == TopAt(Args, s, n) by {
      SplitSound(Args, ',', s[..n]);
      SplitPrefix(Args, ',', s, s[..n], n);
      LevelPrefix(Args, s, s[..n], n);
    }
    if s[n] == ',' && TopAt(Args, s, n) { ReadEnd(cut); } else { ReadMore(cut, s[n]); }
  }

  /** _parse_directive_args */
  method ParseDirectiveArgs(text: string) returns (args: map<string, string>)
    ensures args == ArgsOf(text)
  {
    var s := Strip(text);
    ArgsOfStripped(text);
    args := map[];
    if s == "" { return; }
    var depth, key, value, inString := 0, None, "", false;
    for i := 0 to |s|
      invariant Level(depth, inString) == LevelTo(Args, s, i)
      invariant Reading(args, key, value) == ReadCut(SplitTo(Args, ',', s, i))
    {
      var c := s[i];
      ReadNext(s, i);
      if Quote(c) {
        inString := !inString;
        value := value + [c];
      } else if inString {
        value := value + [c];
      } else if c == '[' || c == '{' {
        depth := depth + 1;
        value := value + [c];
      } else if c == ']' || c == '}' {
        depth := depth - 1;
        value := value + [c];
      } else if c == '=' && depth == 0 {
        key := Some(Strip(value));
        value := "";
      } else if c == ',' && depth == 0 {
        if key.Some? && key.value != "" { args := args[key.value := Strip(value)]; }
        key := None;
        value := "";
      } else {
        value := value + [c];
      }
    }
    if key.Some? && key.value != "" { args := args[key.value := Strip(value)]; }
  }

  lemma {:induction false} RStripEnds(s: string)
    ensures RStrip(s) != "" ==> !IsSpace(RStrip(s)[|RStrip(s)| - 1])
  {
    if s != "" && IsSpace(s[|s| - 1]) { RStripEnds(s[..|s| - 1]); }
  }

  lemma {:induction false} LStripSolid(s: string)
    requires s != "" && !IsSpace(s[|s| - 1])
    ensures var t := LStrip(s); t != "" && t[|t| - 1] == s[|s| - 1]
  {
    if IsSpace(s[0]) { LStripSolid(s[1..]); }
  }

  /** A last piece that is not empty holds the last character of the text, which stripping leaves solid. */
  lemma OpenIsSolid(style: Style, s: string)
    requires s != "" && s == Strip(s)
    ensures var open := Split(style, ',', s).open;
            open == "" <==> Strip(open) == ""
  {
    RStripEnds(LStrip(s));
    var open := Split(style, ',', s).open;
    if open != "" {
      assert open[|open| - 1] == s[|s| - 1];
      LStripSolid(open);
    }
  }

  /** The loop that cuts a list or a combination into items, with the brackets of its style. */
  method TopItems(style: Style, value: string) returns (items: seq<string>)
    requires style != Args && value != "" && value == Strip(value)
    ensures items == Items(Split(style, ',', value))
  {
    items := [];
    var current, depth := "", 0;
    for i := 0 to |value|
      invariant depth == LevelTo(style, value, i).depth
      invariant current == SplitTo(style, ',', value, i).open
      invariant items == MapStrip(SplitTo(style, ',', value, i).done)
    {
      var c := value[i];
      if Opens(style, c) {
        depth := depth + 1;
        current := current + [c];
      } else if Closes(style, c) {
        depth := depth - 1;
        current := current + [c];
      } else if c == ',' && depth == 0 {
        items := items + [Strip(current)];
        current := "";
      } else {
        current := current + [c];
      }
    }
    OpenIsSolid(style, value);
    if current != "" { items := items + [Strip(current)]; }
  }

  /** _parse_list */
  method ParseList(text: string) returns (items: seq<string>)
    ensures items == ListOf(text)
  {
    var value := Strip(text);
    if !Enclosed(value, '[', ']') { return [value]; }
    ghost var inner := value[1..|value| - 1];
    SplitStripped(List, ',', inner);
    StripAgain(inner);
    value := Strip(value[1..|value| - 1]);
    if value == "" { return []; }
    items := TopItems(List, value);
  }

  /** _parse_combo_dict */
  method ParseComboDict(text: string) returns (combo: map<string, string>)
    ensures combo == ComboOf(text)
  {
    combo := map[];
    var value := Strip(text);
    if !Enclosed(value, '{', '}') { return; }
    ghost var inner := value[1..|value| - 1];
    SplitStripped(Combo, ',', inner);
    StripAgain(inner);
    value := Strip(value[1..|value| - 1]);
    if value == "" { return; }
    var pairs := TopItems(Combo, value);
    combo := PutPairs(pairs);
  }

  /** The loop over the pairs of a combination. */
  method PutPairs(pairs: seq<string>) returns (combo: map<string, string>)
    ensures combo == PutAll(pairs)
  {
    combo := map[];
    for i := 0 to |pairs|
      invariant combo == PutAll(pairs[..i])
    {
      assert pairs[..i + 1][..i] == pairs[..i];
      var k := Find('=', pairs[i]);
      assert pairs[i][..|pairs[i]|] == pairs[i];
      if '=' in pairs[i] { combo := combo[Strip(pairs[i][..k]) := Strip(pairs[i][k + 1..])]; }
    }
    assert pairs[..|pairs|] == pairs;
  }

  lemma GroupsSnoc(s: string, c: char)
    ensures Groups(s + [c]) ==
            var cut, depth := Groups(s), LevelOf(Braces, s).depth;
            if c == '}' && depth == 1 then Cut(cut.done + [cut.open + [c]], "")
            else if depth == 0 && Skipped(c) then cut
            else Cut(cut.done, cut.open + [c])
  {
    GroupsPrefix(s + [c], s, |s|);
    LevelPrefix(Braces, s + [c], s, |s|);
  }

  lemma {:induction false} GroupsPrefix(s: string, t: string, n: nat)
    requires n <= |s| && n <= |t| && forall i :: 0 <= i < n ==> s[i] == t[i]
    ensures GroupsTo(s, n) == GroupsTo(t, n)
  {
    if n > 0 {
      GroupsPrefix(s, t, n - 1);
      LevelPrefix(Braces, s, t, n - 1);
    }
  }

  lemma CombosSnoc(groups: seq<string>, group: string, combo: map<string, string>)
    requires combo == ComboOf(group)
    ensures NonEmpty(ComboMaps(groups + [group])) ==
            NonEmpty(ComboMaps(groups)) + if combo == map[] then [] else [combo]
  {
    assert ComboMaps(groups + [group]) == ComboMaps(groups) + [combo];
    assert (ComboMaps(groups) + [combo])[..|groups|] == ComboMaps(groups);
  }

  /** A closed combination is parsed and appended unless it is empty. */
  method AddCombo(before: seq<map<string, string>>, group: string, ghost groups: seq<string>)
    returns (combos: seq<map<string, string>>)
    requires before == NonEmpty(ComboMaps(groups))
    ensures combos == NonEmpty(ComboMaps(groups + [group]))
  {
    var combo := ParseComboDict(group);
    CombosSnoc(groups, group, combo);
    combos := if combo != map[] then before + [combo] else before;
  }

  /** _parse_combinations */
  method ParseCombinations(text: string) returns (combos: seq<map<string, string>>)
    ensures combos == CombosOf(text)
  {
    var value := Strip(text);
    if !Enclosed(value, '[', ']') { return []; }
    value := Strip(value[1..|value| - 1]);
    if value == "" { return []; }
    combos := CollectCombos(value);
  }

  /** Its loop over the characters between the brackets. */
  method CollectCombos(value: string) returns (combos: seq<map<string, string>>)
    ensures combos == NonEmpty(ComboMaps(Groups(value).done))
  {
    combos := [];
    var current, depth := "", 0;
    ghost var groups := [];
    for i := 0 to |value|
      invariant depth == LevelTo(Braces, value, i).depth
      invariant GroupsTo(value, i) == Cut(groups, current)
      invariant combos == NonEmpty(ComboMaps(groups))
    {
      var c := value[i];
      if c == '{' {
        depth := depth + 1;
        current := current + [c];
      } else if c == '}' {
        depth := depth - 1;
        current := current + [c];
        if depth == 0 {
          combos := AddCombo(combos, current, groups);
          groups := groups + [current];
          current := "";
        }
      } else if depth == 0 && Skipped(c) {
      } else {
        current := current + [c];
      }
    }
  }

  // ---------------------------------------------------------------------------------------------
  // The printer and the round trips

  /** The items with a space after each comma that will join them. */
  function Spaced(items: seq<string>): Cut
    requires items != []
  {
    var n := |items| - 1;
    Cut(seq(n, i requires 0 <= i < n => SpaceBefore(items, i)), SpaceBefore(items, n))
  }

  function SpaceBefore(items: seq<string>, i: nat): string
    requires i < |items|
  {
    if i == 0 then items[0] else " " + items[i]
  }

  /** The items separated by ", ". */
  function Commas(items: seq<string>): string { if items == [] then "" else Join(',', Spaced(items)) }

  function PrintList(items: seq<string>): string { "[" + Commas(items) + "]" }

  function PrintPair(pair: (string, string)): string { pair.0 + "=" + pair.1 }

  function PrintPairs(pairs: seq<(string, string)>): seq<string> {
    seq(|pairs|, i requires 0 <= i < |pairs| => PrintPair(pairs[i]))
  }

  function PrintCombo(pairs: seq<(string, string)>): string { "{" + Commas(PrintPairs(pairs)) + "}" }

  function PrintedCombos(combos: seq<seq<(string, string)>>): seq<string> {
    seq(|combos|, i requires 0 <= i < |combos| => PrintCombo(combos[i]))
  }

  function PrintCombos(combos: seq<seq<(string, string)>>): string { PrintList(PrintedCombos(combos)) }

  datatype Value = Text(text: string) | Choices(items: seq<string>) | Combos(combos: seq<seq<(string, string)>>)

  function PrintValue(v: Value): string {
    match v
    case Text(text) => text
    case Choices(items) => PrintList(items)
    case Combos(combos) => PrintCombos(combos)
  }

  /** The argument text of a hint. */
  function PrintHint(hint: seq<(string, Value)>): string {
    Commas(PrintPairs(HintPairs(hint)))
  }

  /** Later pairs win. */
  ghost function MapOf(pairs: seq<(string, string)>): map<string, string> {
    if pairs == [] then map[] else MapOf(pairs[..|pairs| - 1])[pairs[|pairs| - 1].0 := pairs[|pairs| - 1].1]
  }

  ghost predicate DistinctKeys<T>(pairs: seq<(string, T)>) {
    forall i, j :: 0 <= i < j < |pairs| ==> pairs[i].0 != pairs[j].0
  }

  /** With distinct keys the map is the pairs. */
  lemma {:induction false} MapOfDistinct(pairs: seq<(string, string)>)
    requires DistinctKeys(pairs)
    ensures forall i :: 0 <= i < |pairs| ==> pairs[i].0 in MapOf(pairs) && MapOf(pairs)[pairs[i].0] == pairs[i].1
    ensures forall k :: k in MapOf(pairs) ==> exists i :: 0 <= i < |pairs| && pairs[i].0 == k
  {
    if pairs != [] {
      var init := pairs[..|pairs| - 1];
      MapOfDistinct(init);
      assert forall i :: 0 <= i < |init| ==> init[i] == pairs[i];
    }
  }

  ghost predicate Trimmed(s: string) { s == "" || (!IsSpace(s[0]) && !IsSpace(s[|s| - 1])) }

  lemma {:induction false} LStripEnds(s: string)
    ensures LStrip(s) != "" ==> !IsSpace(LStrip(s)[0])
    ensures |LStrip(s)| <= |s|
  {
    if s != "" && IsSpace(s[0]) { LStripEnds(s[1..]); }
  }

  lemma {:induction false} RStripStart(s: string)
    ensures RStrip(s) <= s
  {
    if s != "" && IsSpace(s[|s| - 1]) { RStripStart(s[..|s| - 1]); }
  }

  lemma TrimmedIff(s: string)
    ensures Trimmed(s) <==> Strip(s) == s
  {
    if s != "" && IsSpace(s[0]) { LStripEnds(s[1..]); }
    RStripStart(LStrip(s));
    RStripEnds(LStrip(s));
  }

  /** A list in any layout means its items. */
  lemma ListMeaning(cut: Cut)
    requires Pieces(List, ',', cut)
    ensures ListOf("[" + Join(',', cut) + "]") == Items(cut)
  {
    var text := "[" + Join(',', cut) + "]";
    TrimmedIff(text);
    assert text[1..|text| - 1] == Join(',', cut);
    SplitUnique(List, ',', cut);
  }

  lemma ClosedAfterBlank(style: Style, sep: char, s: string)
    requires Separator(sep)
    ensures LevelOf(style, " " + s) == LevelOf(style, s)
    ensures Whole(style, sep, " " + s) <==> Whole(style, sep, s)
  {
    var t := " " + s;
    BlankLevel(style, " ", 1);
    Shift(style, " ", s);
    forall i | 0 <= i < |s| ensures t[i + 1] == s[i] && TopAt(style, t, i + 1) == TopAt(style, s, i) {
      ShiftTo(style, " ", s, i);
    }
    if Whole(style, sep, t) {
      forall i | 0 <= i < |s| && s[i] == sep ensures !TopAt(style, s, i) {
        assert TopAt(style, t, i + 1) == TopAt(style, s, i);
      }
    }
    if Whole(style, sep, s) {
      forall i | 0 <= i < |t| && t[i] == sep ensures !TopAt(style, t, i) {
        assert TopAt(style, t, i) == TopAt(style, s, i - 1);
      }
    }
  }

  lemma SpacedPieces(style: Style, items: seq<string>)
    requires items != [] && forall i :: 0 <= i < |items| ==> Closed(style, ',', items[i])
    ensures Pieces(style, ',', Spaced(items))
  {
    forall i | 0 <= i < |items| ensures Closed(style, ',', SpaceBefore(items, i)) {
      ClosedAfterBlank(style, ',', items[i]);
    }
  }

  lemma SpacedStrips(items: seq<string>)
    requires items != [] && forall i :: 0 <= i < |items| ==> Trimmed(items[i])
    ensures StripCut(Spaced(items)) == Cut(items[..|items| - 1], items[|items| - 1])
  {
    forall i | 0 <= i < |items| ensures Strip(SpaceBefore(items, i)) == items[i] {
      TrimmedIff(items[i]);
      StripPadded(" ", items[i], "");
      assert " " + items[i] + "" == " " + items[i];
    }
  }

  lemma ItemsOfCommas(style: Style, items: seq<string>)
    requires items != [] && forall i :: 0 <= i < |items| ==> Trimmed(items[i]) && Closed(style, ',', items[i])
    ensures Items(Split(style, ',', Commas(items))) == if items[|items| - 1] == "" then items[..|items| - 1] else items
  {
    SpacedPieces(style, items);
    SplitUnique(style, ',', Spaced(items));
    SpacedStrips(items);
    ItemsStripped(Spaced(items));
    assert items == items[..|items| - 1] + [items[|items| - 1]];
  }

  lemma ItemsStripped(cut: Cut)
    ensures Items(cut) == StripCut(cut).done + if StripCut(cut).open == "" then [] else [StripCut(cut).open]
  {}

  /** A printed list is read back exactly when its last item is not the empty one. */
  lemma ListRoundTripIff(items: seq<string>)
    requires forall i :: 0 <= i < |items| ==> Trimmed(items[i]) && Closed(List, ',', items[i])
    ensures ListOf(PrintList(items)) == items <==> (items == [] || items[|items| - 1] != "")
  {
    if items == [] {
      ListMeaning(Cut([], ""));
      assert Join(',', Cut([], "")) == "";
    } else {
      SpacedPieces(List, items);
      ListMeaning(Spaced(items));
      SplitUnique(List, ',', Spaced(items));
      ItemsOfCommas(List, items);
    }
  }

  // Brackets that match, so that enclosed text has no top level of its own.

  ghost function DepthAt(style: Style, s: string, i: nat): int
    requires i <= |s|
  {
    LevelTo(style, s, i).depth
  }

  /** Brackets and quotes match, and no bracket closes one of the surrounding text. */
  ghost predicate Balanced(style: Style, s: string) {
    Top(LevelOf(style, s)) && forall i {:trigger DepthAt(style, s, i)} :: 0 <= i <= |s| ==> DepthAt(style, s, i) >= 0
  }

  lemma BalancedConcat(style: Style, a: string, b: string)
    requires Balanced(style, a) && Balanced(style, b)
    ensures Balanced(style, a + b)
  {
    var t := a + b;
    Shift(style, a, b);
    forall i | 0 <= i <= |t| ensures DepthAt(style, t, i) >= 0 {
      if i <= |a| {
        LevelPrefix(style, t, a, i);
        assert DepthAt(style, a, i) >= 0;
      } else {
        ShiftTo(style, a, b, i - |a|);
        assert DepthAt(style, b, i - |a|) >= 0;
      }
    }
  }

  predicate Plain(c: char) { !Quote(c) && !Opens(Args, c) && !Closes(Args, c) }

  lemma BalancedChar(style: Style, c: char)
    requires Plain(c)
    ensures Balanced(style, [c])
  {
    assert LevelTo(style, [c], 0) == LevelTo(style, [c], 1);
  }

  ghost predicate Brackets(style: Style, open: char, close: char) {
    Opens(style, open) && Closes(style, close) && !Closes(style, open) && !Opens(style, close)
  }

  lemma EnclosedDepth(style: Style, open: char, s: string, close: char, i: nat)
    requires Brackets(style, open, close) && Balanced(style, s) && 0 < i <= |s| + 1
    ensures DepthAt(style, [open] + s + [close], i) >= 1
    ensures i == |s| + 1 ==> LevelTo(style, [open] + s + [close], i) == Level(1, false)
  {
    var t := [open] + (s + [close]);
    assert t == [open] + s + [close];
    assert LevelOf(style, [open]) == Level(1, false) by { LevelPrefix(style, [open], t, 0); }
    ShiftTo(style, [open], s + [close], i - 1);
    LevelPrefix(style, s + [close], s, i - 1);
    assert DepthAt(style, s, i - 1) >= 0;
  }

  /** Text in matching brackets is closed for every separator, and balanced. */
  lemma EnclosedClosed(style: Style, sep: char, open: char, s: string, close: char)
    requires Separator(sep) && Brackets(style, open, close) && Balanced(style, s)
    ensures Closed(style, sep, [open] + s + [close]) && Balanced(style, [open] + s + [close])
  {
    var t := [open] + s + [close];
    EnclosedDepth(style, open, s, close, |s| + 1);
    forall i | 0 <= i <= |t| ensures DepthAt(style, t, i) >= 0 && (i < |t| && t[i] == sep ==> !TopAt(style, t, i)) {
      if 0 < i <= |s| + 1 { EnclosedDepth(style, open, s, close, i); }
    }
  }

  lemma BalancedJoined(style: Style, a: string, b: string)
    requires Balanced(style, a) && Balanced(style, b)
    ensures Balanced(style, a + "," + " " + b)
  {
    BalancedChar(style, ',');
    BalancedChar(style, ' ');
    BalancedConcat(style, a, ",");
    BalancedConcat(style, a + ",", " ");
    BalancedConcat(style, a + "," + " ", b);
  }

  lemma {:induction false} BalancedCommas(style: Style, items: seq<string>)
    requires forall i :: 0 <= i < |items| ==> Balanced(style, items[i])
    ensures Balanced(style, Commas(items))
  {
    if items == [] {
      assert DepthAt(style, "", 0) == 0;
    } else {
      var init, last := items[..|items| - 1], items[|items| - 1];
      BalancedCommas(style, init);
      if init == [] {
        assert Commas(items) == last;
      } else {
        CommasSnoc(init, last);
        BalancedJoined(style, Commas(init), last);
        assert items == init + [last];
      }
    }
  }

  lemma CommasSnoc(items: seq<string>, last: string)
    requires items != []
    ensures Commas(items + [last]) == Commas(items) + "," + " " + last
  {
    var cut, grown := Spaced(items), Spaced(items + [last]);
    assert grown.done == cut.done + [cut.open] && grown.open == " " + last;
    JoinSnoc(',', cut, ',');
    assert Join(',', grown) == JoinDone(',', grown.done) + grown.open;
  }

  // Combinations

  ghost predicate GoodPair(pair: (string, string)) {
    && Trimmed(pair.0) && Trimmed(pair.1) && '=' !in pair.0
    && Closed(Combo, ',', PrintPair(pair)) && Balanced(Braces, PrintPair(pair))
  }

  lemma {:induction false} FindAt(c: char, a: string, b: string)
    requires c !in a
    ensures Find(c, a + [c] + b) == |a|
  {
    var s := a + [c] + b;
    if a == "" {
      assert s[0] == c;
    } else {
      assert s[1..] == a[1..] + [c] + b;
      FindAt(c, a[1..], b);
    }
  }

  lemma PutPair(combo: map<string, string>, pair: (string, string))
    requires Trimmed(pair.0) && Trimmed(pair.1) && '=' !in pair.0
    ensures Put(combo, PrintPair(pair)) == combo[pair.0 := pair.1]
    ensures Trimmed(PrintPair(pair)) && PrintPair(pair) != ""
  {
    var s := PrintPair(pair);
    FindAt('=', pair.0, pair.1);
    assert s[..|pair.0|] == pair.0 && s[|pair.0| + 1..] == pair.1;
    TrimmedIff(pair.0);
    TrimmedIff(pair.1);
    assert s[0] == (pair.0 + "=")[0] && s[|s| - 1] == ("=" + pair.1)[|pair.1|];
  }

  lemma {:induction false} PutPrinted(pairs: seq<(string, string)>)
    requires GoodCombo(pairs)
    ensures PutAll(PrintPairs(pairs)) == MapOf(pairs)
  {
    if pairs != [] {
      var init := pairs[..|pairs| - 1];
      PutPrinted(init);
      assert PrintPairs(pairs)[..|pairs| - 1] == PrintPairs(init);
      PutPair(MapOf(init), pairs[|pairs| - 1]);
    }
  }

  ghost predicate GoodCombo(pairs: seq<(string, string)>) { forall i :: 0 <= i < |pairs| ==> GoodPair(pairs[i]) }

  /** A printed combination is read back. */
  lemma ComboRoundTrip(pairs: seq<(string, string)>)
    requires GoodCombo(pairs)
    ensures ComboOf(PrintCombo(pairs)) == MapOf(pairs)
  {
    var texts, text := PrintPairs(pairs), PrintCombo(pairs);
    TrimmedIff(text);
    assert text[1..|text| - 1] == Commas(texts);
    if pairs == [] {
      assert Items(Split(Combo, ',', "")) == [];
    } else {
      PrintedPairs(pairs);
      ItemsOfCommas(Combo, texts);
    }
    PutPrinted(pairs);
  }

  lemma PrintedPairs(pairs: seq<(string, string)>)
    requires GoodCombo(pairs)
    ensures forall i :: 0 <= i < |pairs| ==>
              var text := PrintPairs(pairs)[i];
              Trimmed(text) && text != "" && Closed(Combo, ',', text) && Balanced(Braces, text)
  {
    forall i | 0 <= i < |pairs| ensures Trimmed(PrintPair(pairs[i])) && PrintPair(pairs[i]) != "" {
      PutPair(map[], pairs[i]);
    }
  }

  /** A text that opens a brace first and closes it last. */
  ghost predicate IsGroup(g: string) {
    && g != "" && g[0] == '{' && Top(LevelOf(Braces, g))
    && forall i {:trigger DepthAt(Braces, g, i)} :: 0 < i < |g| ==> DepthAt(Braces, g, i) >= 1
  }

  /** Inside a group everything is collected. */
  lemma {:induction false} GroupCollects(s: string, done: seq<string>, g: string, i: nat)
    requires Groups(s) == Cut(done, "") && Top(LevelOf(Braces, s)) && IsGroup(g) && 0 < i < |g|
    ensures GroupsTo(s + g, |s| + i) == Cut(done, g[..i])
  {
    if i == 1 {
      GroupsPrefix(s + g, s, |s|);
      LevelPrefix(Braces, s + g, s, |s|);
    } else {
      GroupCollects(s, done, g, i - 1);
      ShiftTo(Braces, s, g, i - 1);
      assert DepthAt(Braces, g, i) >= 1 && DepthAt(Braces, g, i - 1) >= 1;
    }
    assert g[..i] == g[..i - 1] + [g[i - 1]];
  }

  lemma GroupEnds(g: string)
    requires IsGroup(g)
    ensures |g| > 1 && g[|g| - 1] == '}' && LevelTo(Braces, g, |g| - 1) == Level(1, false)
  {
    assert LevelTo(Braces, g, 1) == Step(Braces, LevelTo(Braces, g, 0), g[0]);
    assert |g| > 1 ==> DepthAt(Braces, g, |g| - 1) >= 1;
  }

  lemma GroupRead(s: string, done: seq<string>, g: string)
    requires Groups(s) == Cut(done, "") && Top(LevelOf(Braces, s)) && IsGroup(g)
    ensures Groups(s + g) == Cut(done + [g], "") && Top(LevelOf(Braces, s + g))
  {
    GroupEnds(g);
    var n := |g| - 1;
    var t := s + g;
    assert GroupsTo(t, |s| + n) == Cut(done, g[..n]) by { GroupCollects(s, done, g, n); }
    assert LevelTo(Braces, t, |s| + n) == Level(1, false) by { ShiftTo(Braces, s, g, n); }
    assert t[|s| + n] == '}' && |t| == |s| + n + 1;
    assert g == g[..n] + [g[n]];
  }

  lemma BracesGroup(s: string)
    requires Balanced(Braces, s)
    ensures IsGroup("{" + s + "}")
  {
    var g := "{" + s + "}";
    EnclosedClosed(Braces, ',', '{', s, '}');
    forall i | 0 < i < |g| ensures DepthAt(Braces, g, i) >= 1 {
      EnclosedDepth(Braces, '{', s, '}', i);
    }
  }

  lemma NextGroup(s: string, done: seq<string>, g: string)
    requires Groups(s) == Cut(done, "") && Top(LevelOf(Braces, s)) && IsGroup(g)
    ensures Groups(s + "," + " " + g) == Cut(done + [g], "") && Top(LevelOf(Braces, s + "," + " " + g))
  {
    GroupsSnoc(s, ',');
    LevelSnoc(Braces, s, ',');
    GroupsSnoc(s + ",", ' ');
    LevelSnoc(Braces, s + ",", ' ');
    GroupRead(s + "," + " ", done, g);
  }

  lemma {:induction false} GroupsRead(groups: seq<string>)
    requires forall i :: 0 <= i < |groups| ==> IsGroup(groups[i])
    ensures Groups(Commas(groups)) == Cut(groups, "") && Top(LevelOf(Braces, Commas(groups)))
  {
    if groups != [] {
      var init, last := groups[..|groups| - 1], groups[|groups| - 1];
      GroupsRead(init);
      assert groups == init + [last];
      if init == [] {
        GroupRead("", [], last);
        assert Commas(groups) == "" + last;
      } else {
        CommasSnoc(init, last);
        NextGroup(Commas(init), init, last);
      }
    }
  }

  ghost function PairMaps(combos: seq<seq<(string, string)>>): seq<map<string, string>> {
    seq(|combos|, i requires 0 <= i < |combos| => MapOf(combos[i]))
  }

  ghost predicate GoodCombos(combos: seq<seq<(string, string)>>) {
    forall c :: 0 <= c < |combos| ==> GoodCombo(combos[c])
  }

  lemma MapOfEmptyIff(pairs: seq<(string, string)>)
    ensures MapOf(pairs) == map[] <==> pairs == []
  {
    if pairs != [] { assert pairs[|pairs| - 1].0 in MapOf(pairs); }
  }

  /** Printed combinations are read back, but for the empty ones. */
  lemma CombosRoundTrip(combos: seq<seq<(string, string)>>)
    requires GoodCombos(combos)
    ensures CombosOf(PrintCombos(combos)) == NonEmpty(PairMaps(combos))
  {
    var groups, maps := PrintedCombos(combos), PairMaps(combos);
    GroupsOfPrinted(combos);
    CombosOfList(groups);
    forall i | 0 <= i < |combos| ensures ComboOf(groups[i]) == maps[i] { ComboRoundTrip(combos[i]); }
    assert ComboMaps(groups) == maps;
  }

  /** ... so all of them are, exactly when none is empty. */
  lemma CombosRoundTripIff(combos: seq<seq<(string, string)>>)
    requires GoodCombos(combos)
    ensures CombosOf(PrintCombos(combos)) == PairMaps(combos) <==> forall c :: 0 <= c < |combos| ==> combos[c] != []
  {
    CombosRoundTrip(combos);
    var maps := PairMaps(combos);
    forall i | 0 <= i < |combos| ensures maps[i] == map[] <==> combos[i] == [] { MapOfEmptyIff(combos[i]); }
    NonEmptyKeepsIff(maps);
  }

  lemma CombosOfList(groups: seq<string>)
    requires Groups(Commas(groups)).done == groups
    requires forall i :: 0 <= i < |groups| ==> Trimmed(groups[i]) && groups[i] != ""
    ensures CombosOf(PrintList(groups)) == NonEmpty(ComboMaps(groups))
  {
    var text := PrintList(groups);
    TrimmedIff(text);
    assert text[1..|text| - 1] == Commas(groups);
    CommasTrimmed(groups);
    TrimmedIff(Commas(groups));
  }

  lemma GroupsOfPrinted(combos: seq<seq<(string, string)>>)
    requires GoodCombos(combos)
    ensures Groups(Commas(PrintedCombos(combos))) == Cut(PrintedCombos(combos), "")
  {
    var groups := PrintedCombos(combos);
    forall c | 0 <= c < |combos| ensures IsGroup(groups[c]) {
      PrintedPairs(combos[c]);
      BalancedCommas(Braces, PrintPairs(combos[c]));
      BracesGroup(Commas(PrintPairs(combos[c])));
    }
    GroupsRead(groups);
  }

  lemma CommasTrimmed(items: seq<string>)
    requires forall i :: 0 <= i < |items| ==> Trimmed(items[i]) && items[i] != ""
    ensures Trimmed(Commas(items))
  {
    if |items| > 1 {
      var init, last := items[..|items| - 1], items[|items| - 1];
      assert items == init + [last] && init[0] == items[0];
      assert items[0] <= Commas(init) by { CommasStart(init); }
      assert Commas(items) == Commas(init) + "," + " " + last by { CommasSnoc(init, last); }
      TrimmedJoined(items[0], Commas(init), last);
    } else if |items| == 1 {
      assert Commas(items) == items[0];
    }
  }

  lemma TrimmedJoined(first: string, a: string, last: string)
    requires first != "" && last != "" && Trimmed(first) && Trimmed(last) && first <= a
    ensures Trimmed(a + "," + " " + last)
  {
    var text := a + "," + " " + last;
    assert text[0] == first[0] && text[|text| - 1] == last[|last| - 1];
  }

  lemma {:induction false} CommasStart(items: seq<string>)
    requires items != [] && items[0] != ""
    ensures items[0] <= Commas(items)
  {
    if |items| > 1 {
      var init, last := items[..|items| - 1], items[|items| - 1];
      CommasStart(init);
      CommasSnoc(init, last);
      PrefixJoined(items[0], Commas(init), last);
      assert items == init + [last];
    }
  }

  lemma PrefixJoined(first: string, a: string, last: string)
    requires first <= a
    ensures first <= a + "," + " " + last
  {}

  // Whole hints

  /** A value whose printed text can stand in an argument list. */
  ghost predicate GoodValue(v: Value) {
    match v
    case Text(text) => Trimmed(text) && Closed(Args, ',', text) && Whole(Args, '=', text)
    case Choices(items) =>
      && (items == [] || items[|items| - 1] != "")
      && forall i :: 0 <= i < |items| ==> Trimmed(items[i]) && Closed(List, ',', items[i]) && Balanced(Args, items[i])
    case Combos(combos) =>
      && GoodCombos(combos)
      && forall c :: 0 <= c < |combos| ==> combos[c] != [] && BalancedPairs(combos[c])
  }

  ghost predicate BalancedPairs(pairs: seq<(string, string)>) {
    forall i :: 0 <= i < |pairs| ==> Balanced(Args, PrintPair(pairs[i]))
  }

  ghost predicate GoodKey(key: string) { key != "" && Trimmed(key) && Closed(Args, '=', key) && Closed(Args, ',', key) }

  /** The parsers read the value back from the text. */
  ghost predicate ReadsBack(text: string, v: Value) {
    match v
    case Text(t) => text == t
    case Choices(items) => ListOf(text) == items
    case Combos(combos) => CombosOf(text) == PairMaps(combos)
  }

  lemma PrintedValue(v: Value)
    requires GoodValue(v)
    ensures var text := PrintValue(v);
            Trimmed(text) && Closed(Args, ',', text) && Whole(Args, '=', text) && ReadsBack(text, v)
  {
    match v
    case Text(_) =>
    case Choices(items) =>
      ListRoundTripIff(items);
      PrintedListClosed(items);
    case Combos(combos) =>
      CombosRoundTripIff(combos);
      var groups := PrintedCombos(combos);
      forall c | 0 <= c < |combos| ensures Balanced(Args, groups[c]) {
        BalancedCommas(Args, PrintPairs(combos[c]));
        EnclosedClosed(Args, ',', '{', Commas(PrintPairs(combos[c])), '}');
      }
      PrintedListClosed(groups);
  }

  lemma PrintedListClosed(items: seq<string>)
    requires forall i :: 0 <= i < |items| ==> Balanced(Args, items[i])
    ensures var text := PrintList(items);
            Trimmed(text) && Closed(Args, ',', text) && Whole(Args, '=', text)
  {
    BalancedCommas(Args, items);
    EnclosedClosed(Args, ',', '[', Commas(items), ']');
    EnclosedClosed(Args, '=', '[', Commas(items), ']');
  }

  /** One printed argument assigns its value to its key, with or without a space before it. */
  lemma ArgumentAssigns(args: map<string, string>, key: string, text: string)
    requires GoodKey(key) && Trimmed(text) && Whole(Args, '=', text)
    ensures Assign(args, PrintPair((key, text))) == args[key := text]
    ensures Assign(args, " " + PrintPair((key, text))) == args[key := text]
  {
    var piece := PrintPair((key, text));
    var cut := Cut([key], text);
    assert Join('=', cut) == piece by { assert JoinDone('=', []) + key + ['='] == key + "="; }
    SplitUnique(Args, '=', cut);
    TrimmedIff(key);
    TrimmedIff(text);
    AssignPadded(args, " ", piece, "");
  }

  /** key=text has no top-level comma and ends at top level, if key and text do. */
  lemma ArgumentClosed(key: string, text: string)
    requires GoodKey(key) && Closed(Args, ',', text)
    ensures Closed(Args, ',', PrintPair((key, text)))
  {
    var head, t := key + "=", PrintPair((key, text));
    LevelSnoc(Args, key, '=');
    WholeSnoc(Args, ',', key, '=');
    Shift(Args, head, text);
    forall i | 0 <= i < |t| && t[i] == ',' ensures !TopAt(Args, t, i) {
      if i < |head| {
        LevelPrefix(Args, t, head, i);
        assert !TopAt(Args, head, i);
      } else {
        ShiftTo(Args, head, text, i - |head|);
        assert !TopAt(Args, text, i - |head|);
      }
    }
  }

  /** A quoted text is one piece, whatever separators and brackets stand between the quotes. */
  lemma QuotedClosed(sep: char, q: char, t: string, r: char)
    requires Separator(sep) && (q == '"' || q == '\'') && (r == '"' || r == '\'') && Unquoted(t)
    ensures Closed(Args, sep, [q] + t + [r]) && Trimmed([q] + t + [r])
  {
    var all := "" + [q] + t + [r];
    assert all == [q] + t + [r];
    AfterQuotes("", q, t, r);
    forall i | 0 <= i < |all| && all[i] == sep ensures !TopAt(Args, all, i) {
      LevelPrefix(Args, all, "" + [q] + t, i);
      InsideQuotes("", q, t, i - 1);
    }
  }

  /** So a comma or an equals sign between quotes stays inside its value, quotes and all. */
  lemma QuotedValueStays(key: string, q: char, t: string, r: char)
    requires GoodKey(key) && (q == '"' || q == '\'') && (r == '"' || r == '\'') && Unquoted(t)
    ensures ArgsOf(key + "=" + [q] + t + [r]) == map[key := [q] + t + [r]]
  {
    var text := [q] + t + [r];
    QuotedClosed(',', q, t, r);
    QuotedClosed('=', q, t, r);
    ArgumentClosed(key, text);
    ArgumentAssigns(map[], key, text);
    var piece := PrintPair((key, text));
    assert piece == key + "=" + [q] + t + [r];
    SplitUnique(Args, ',', Cut([], piece));
    assert Join(',', Cut([], piece)) == piece;
  }

  ghost predicate GoodArg(pair: (string, string)) {
    GoodKey(pair.0) && Trimmed(pair.1) && Closed(Args, ',', pair.1) && Whole(Args, '=', pair.1)
  }

  predicate IsArg(piece: string, pair: (string, string)) { piece == PrintPair(pair) || piece == " " + PrintPair(pair) }

  lemma {:induction false} AssignAllPrinted(pairs: seq<(string, string)>, pieces: seq<string>)
    requires |pieces| == |pairs| && forall i :: 0 <= i < |pairs| ==> GoodArg(pairs[i])
    requires forall i :: 0 <= i < |pairs| ==> IsArg(pieces[i], pairs[i])
    ensures AssignAll(pieces) == MapOf(pairs)
  {
    if pairs != [] {
      var n := |pairs| - 1;
      AssignAllPrinted(pairs[..n], pieces[..n]);
      ArgumentAssigns(MapOf(pairs[..n]), pairs[n].0, pairs[n].1);
    }
  }

  lemma SplitArguments(pairs: seq<(string, string)>)
    requires pairs != [] && forall i :: 0 <= i < |pairs| ==> GoodArg(pairs[i])
    ensures Split(Args, ',', Commas(PrintPairs(pairs))) == Spaced(PrintPairs(pairs))
  {
    var texts := PrintPairs(pairs);
    forall i | 0 <= i < |texts| ensures Closed(Args, ',', texts[i]) { ArgumentClosed(pairs[i].0, pairs[i].1); }
    SpacedPieces(Args, texts);
    SplitUnique(Args, ',', Spaced(texts));
  }

  lemma AssignArgs(pairs: seq<(string, string)>, cut: Cut)
    requires |pairs| == |cut.done| + 1 && forall i :: 0 <= i < |pairs| ==> GoodArg(pairs[i])
    requires forall i :: 0 <= i < |cut.done| ==> IsArg(cut.done[i], pairs[i])
    requires IsArg(cut.open, pairs[|cut.done|])
    ensures Assign(AssignAll(cut.done), cut.open) == MapOf(pairs)
  {
    var init, last := pairs[..|pairs| - 1], pairs[|pairs| - 1];
    assert GoodArg(last) && forall i :: 0 <= i < |init| ==> init[i] == pairs[i];
    var before := AssignAll(cut.done);
    assert before == MapOf(init) by { AssignAllPrinted(init, cut.done); }
    ArgumentAssigns(before, last.0, last.1);
  }

  lemma SpacedArgs(pairs: seq<(string, string)>)
    requires pairs != []
    ensures var cut := Spaced(PrintPairs(pairs));
            |cut.done| + 1 == |pairs| && (forall i :: 0 <= i < |cut.done| ==> IsArg(cut.done[i], pairs[i])) &&
              IsArg(cut.open, pairs[|cut.done|])
  {
    var texts := PrintPairs(pairs);
    assert forall i :: 0 <= i < |texts| ==> IsArg(SpaceBefore(texts, i), pairs[i]);
  }

  /** The arguments of a printed hint. */
  lemma ArgsRoundTrip(pairs: seq<(string, string)>)
    requires forall i :: 0 <= i < |pairs| ==> GoodArg(pairs[i])
    ensures ArgsOf(Commas(PrintPairs(pairs))) == MapOf(pairs)
  {
    if pairs != [] {
      SplitArguments(pairs);
      SpacedArgs(pairs);
      AssignArgs(pairs, Spaced(PrintPairs(pairs)));
    }
  }

  function HintPairs(hint: seq<(string, Value)>): seq<(string, string)> {
    seq(|hint|, i requires 0 <= i < |hint| => (hint[i].0, PrintValue(hint[i].1)))
  }

  /** Printing any well-formed hint and parsing it gives its keys, and each value's parser gives its value. */
  lemma HintRoundTrip(hint: seq<(string, Value)>)
    requires DistinctKeys(hint)
    requires forall i :: 0 <= i < |hint| ==> GoodKey(hint[i].0) && GoodValue(hint[i].1)
    ensures var args := ArgsOf(PrintHint(hint));
            && (forall k :: k in args <==> exists i :: 0 <= i < |hint| && hint[i].0 == k)
            && (forall i :: 0 <= i < |hint| ==> hint[i].0 in args && ReadsBack(args[hint[i].0], hint[i].1))
  {
    var pairs := HintPairs(hint);
    forall i | 0 <= i < |hint|
      ensures GoodArg(pairs[i]) && ReadsBack(pairs[i].1, hint[i].1)
    {
      PrintedValue(hint[i].1);
    }
    ArgsRoundTrip(pairs);
    MapOfDistinct(pairs);
  }
}
