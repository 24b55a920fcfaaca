/** Cleaning of a calendar event's HTML description into three display
    forms (src/data_loader.py, `parse_html_description`).

    List items become "- " bullets on their own line, closing block tags
    and line breaks become newlines, every remaining tag `<...>` (no
    newline inside) is deleted, and the text is cut into stripped,
    non-empty lines.  Those lines are joined with "<br>" for the tooltip,
    with newlines for the detail view, and with spaces, cut to fifty
    characters, for the table preview. */
module Notes {

  import opened Common
  import opened Text

  datatype NoteForms = NoteForms(tooltip: string, markdown: string, short: string)

  const NoNotes: NoteForms := NoteForms("<i>(No notes)</i>", "_No additional notes_", "")

  /** Longest table preview kept before "..." is appended. */
  const PreviewLimit: nat := 50

  const ListItem: string := "<li>"
  const Bullet: string := "\n- "

  /** The alternation `</li>|<br>|<br/>|</p>|</div>|</ul>`, in its order. */
  const BlockEnds: seq<string> := ["</li>", "<br>", "<br/>", "</p>", "</div>", "</ul>"]

  // ---------------------------------------------------------------------
  // The non-greedy tag pattern `<.*?>`

  /** No `>` in `s` unless a newline comes before it. */
  ghost predicate CloseOnlyAfterNewline(s: string)
  {
    forall k :: 0 <= k < |s| && s[k] == '>' ==> '\n' in s[..k]
  }

  /** Where the text after a `<` first has `>`, provided no newline comes
      first (`.` does not match a newline). */
  function TagEnd(s: string): (r: Option<nat>)
    ensures r.Some? ==> r.value < |s| && s[r.value] == '>'
    ensures r.Some? ==> forall k :: 0 <= k < r.value ==> s[k] != '>' && s[k] != '\n'
    ensures r.None? ==> CloseOnlyAfterNewline(s)
  {
    if s == [] then None
    else if s[0] == '>' then Some(0)
    else if s[0] == '\n' then
      assert forall k :: 0 < k < |s| ==> s[..k][0] == '\n';
      None
    else match TagEnd(s[1..])
      case Some(j) => Some(j + 1)
      case None =>
        assert forall k :: 1 <= k < |s| ==> s[1..][..k - 1] == s[..k][1..];
        None
  }

  /** No `<` is followed later on the same line by `>`. */
  ghost predicate NoTagLeft(s: string)
  {
    forall i, j :: 0 <= i < j < |s| && s[i] == '<' && s[j] == '>' ==> '\n' in s[i + 1..j]
  }

  /** `re.sub('<.*?>', '', s)`: scanning left to right, a `<` starts a tag
      when a `>` follows on the same line; the shortest such tag is
      deleted, and a `<` with no `>` after it on its line stays. */
  function StripTags(s: string): (r: string)
    ensures |r| <= |s|
    ensures NoTagLeft(r)
    decreases |s|, 0
  {
    if s == [] then []
    else if s[0] == '<' && TagEnd(s[1..]).Some? then
      StripTags(s[TagEnd(s[1..]).value + 2..])
    else
      var rest := StripTags(s[1..]);
      assert s[0] == '<' ==> CloseOnlyAfterNewline(rest) by {
        if s[0] == '<' {
          StripKeepsCloseAfterNewline(s[1..]);
        }
      }
      ConsNoTagLeft(s[0], rest);
      [s[0]] + rest
  }

  /** Only spans that begin with `<` are deleted: text before the first
      `<` is kept as it is. */
  lemma {:induction false} StripTagsKeepsPlain(a: string, b: string)
    requires '<' !in a
    ensures StripTags(a + b) == a + StripTags(b)
    decreases |a|
  {
    if a == [] {
      assert a + b == b;
    } else {
      var s := a + b;
      assert s[0] == a[0] && s[1..] == a[1..] + b;
      StripTagsKeepsPlain(a[1..], b);
      assert a == [a[0]] + a[1..];
    }
  }

  /** A character put in front of a text without tags leaves it without
      tags, unless it is a `<` that a later `>` on its line would close. */
  lemma ConsNoTagLeft(c: char, rest: string)
    requires NoTagLeft(rest)
    requires c == '<' ==> CloseOnlyAfterNewline(rest)
    ensures NoTagLeft([c] + rest)
  {
    var r := [c] + rest;
    forall i, j | 0 <= i < j < |r| && r[i] == '<' && r[j] == '>'
      ensures '\n' in r[i + 1..j]
    {
      if i == 0 {
        assert rest[j - 1] == '>';
        assert rest[..j - 1] == r[1..j];
      } else {
        assert rest[i - 1] == '<' && rest[j - 1] == '>';
        assert rest[i..j - 1] == r[i + 1..j];
      }
    }
  }

  /** Without a `>` before the first newline, a `<` opens no tag. */
  lemma {:induction false} NoTagEnd(t: string)
    requires CloseOnlyAfterNewline(t)
    ensures TagEnd(t).None?
  {
    if t != [] && t[0] != '>' && t[0] != '\n' {
      ShiftCloseAfterNewline(t);
      NoTagEnd(t[1..]);
    }
  }

  /** Dropping a first character that is not a newline keeps the property. */
  lemma ShiftCloseAfterNewline(s: string)
    requires CloseOnlyAfterNewline(s) && s != [] && s[0] != '\n'
    ensures CloseOnlyAfterNewline(s[1..])
  {
    forall k | 0 <= k < |s| - 1 && s[1..][k] == '>' ensures '\n' in s[1..][..k] {
      assert s[k + 1] == '>';
      assert s[..k + 1] == [s[0]] + s[1..][..k];
    }
  }

  /** Deleting tags never brings a `>` forward past a newline. */
  lemma {:induction false} StripKeepsCloseAfterNewline(s: string)
    requires CloseOnlyAfterNewline(s)
    ensures CloseOnlyAfterNewline(StripTags(s))
    decreases |s|, 1
  {
    if s != [] {
      var r := StripTags(s);
      var rest := StripTags(s[1..]);
      if s[0] == '\n' {
        assert r == [s[0]] + rest;
        forall k | 0 <= k < |r| && r[k] == '>' ensures '\n' in r[..k] {
          assert r[..k][0] == '\n';
        }
      } else {
        ShiftCloseAfterNewline(s);
        NoTagEnd(s[1..]);
        assert r == [s[0]] + rest;
        assert s[0] != '>' by { assert s[..0] == []; }
        StripKeepsCloseAfterNewline(s[1..]);
        forall k | 0 <= k < |r| && r[k] == '>' ensures '\n' in r[..k] {
          assert rest[k - 1] == '>';
          assert r[..k] == [s[0]] + rest[..k - 1];
        }
      }
    }
  }

  // ---------------------------------------------------------------------
  // Lines

  /** A line with no `<` before a `>`. */
  ghost predicate NoBracketPair(l: string)
  {
    forall i, j :: 0 <= i < j < |l| && l[i] == '<' ==> l[j] != '>'
  }

  /** A displayable line: non-empty, stripped, one line, no tag left. */
  ghost predicate CleanLine(l: string)
  {
    && l != []
    && !IsSpace(l[0]) && !IsSpace(l[|l| - 1])
    && '\n' !in l
    && NoBracketPair(l)
  }

  lemma NoTagLeftSlice(s: string, x: nat, y: nat)
    requires NoTagLeft(s) && x <= y <= |s|
    ensures NoTagLeft(s[x..y])
  {
    var t := s[x..y];
    forall i, j | 0 <= i < j < |t| && t[i] == '<' && t[j] == '>' ensures '\n' in t[i + 1..j] {
      assert s[x + i] == '<' && s[x + j] == '>';
      var u, v := t[i + 1..j], s[x + i + 1..x + j];
      assert |u| == |v|;
      assert forall m :: 0 <= m < |u| ==> u[m] == v[m];
      assert u == v;
    }
  }

  /** Every piece of a newline join keeps the join's tag property. */
  lemma {:induction false} NoTagLeftPieces(parts: seq<string>)
    requires NoTagLeft(Join(parts, "\n"))
    ensures forall p :: p in parts ==> NoTagLeft(p)
  {
    if |parts| > 1 {
      var s := Join(parts, "\n");
      assert s == parts[0] + "\n" + Join(parts[1..], "\n");
      NoTagLeftSlice(s, 0, |parts[0]|);
      assert s[0..|parts[0]|] == parts[0];
      NoTagLeftSlice(s, |parts[0]| + 1, |s|);
      assert s[|parts[0]| + 1..|s|] == Join(parts[1..], "\n");
      NoTagLeftPieces(parts[1..]);
      assert forall p :: p in parts ==> p == parts[0] || p in parts[1..];
    }
  }

  lemma SingleLineHasNoBracketPair(p: string)
    requires NoTagLeft(p) && '\n' !in p
    ensures NoBracketPair(p)
  {
    forall i, j | 0 <= i < j < |p| && p[i] == '<' ensures p[j] != '>' {
      var u := p[i + 1..j];
      assert '\n' !in u by {
        assert forall m :: 0 <= m < |u| ==> u[m] == p[i + 1 + m];
      }
    }
  }

  /** Stripping cuts a slice, so it keeps a line free of newlines and tags. */
  lemma StripKeepsLine(p: string)
    ensures '\n' !in p && NoBracketPair(p) ==> '\n' !in Strip(p) && NoBracketPair(Strip(p))
  {
    var l := Strip(p);
    StripIsSlice(p);
    var from := StripStart(p);
    if '\n' !in p && NoBracketPair(p) {
      forall k | 0 <= k < |l| ensures l[k] != '\n' {
        assert l[k] == p[from + k];
      }
      forall i, j | 0 <= i < j < |l| && l[i] == '<' ensures l[j] != '>' {
        assert l[i] == p[from + i] && l[j] == p[from + j];
      }
    }
  }

  /** `[line.strip() for line in parts if line.strip()]`. */
  function CleanLines(parts: seq<string>): (lines: seq<string>)
    ensures |lines| <= |parts|
    ensures forall l :: l in lines ==> l != [] && !IsSpace(l[0]) && !IsSpace(l[|l| - 1])
  {
    if parts == [] then []
    else
      var l := Strip(parts[0]);
      var rest := CleanLines(parts[1..]);
      if l == [] then rest else [l] + rest
  }

  /** Pieces are cleaned one by one, in order: the lines of two runs of
      pieces are the lines of the first run followed by those of the
      second. */
  lemma {:induction false} CleanLinesAppend(a: seq<string>, b: seq<string>)
    ensures CleanLines(a + b) == CleanLines(a) + CleanLines(b)
    decreases |a|
  {
    if a == [] {
      assert a + b == b;
    } else {
      assert (a + b)[0] == a[0] && (a + b)[1..] == a[1..] + b;
      CleanLinesAppend(a[1..], b);
    }
  }

  /** A line is kept exactly when it is the non-empty strip of a piece. */
  lemma {:induction false} CleanLinesExactly(parts: seq<string>, l: string)
    ensures l in CleanLines(parts) <==> l != [] && exists p :: p in parts && Strip(p) == l
  {
    if parts != [] {
      CleanLinesExactly(parts[1..], l);
      assert forall p :: p in parts <==> p == parts[0] || p in parts[1..];
    }
  }

  /** One-line pieces without a tag give clean lines. */
  lemma {:induction false} CleanLinesAreClean(parts: seq<string>)
    requires forall p :: p in parts ==> '\n' !in p && NoBracketPair(p)
    ensures forall l :: l in CleanLines(parts) ==> CleanLine(l)
  {
    if parts != [] {
      assert parts[0] in parts;
      assert forall p :: p in parts[1..] ==> p in parts;
      StripKeepsLine(parts[0]);
      CleanLinesAreClean(parts[1..]);
    }
  }

  /** Pieces that are all whitespace give no line. */
  lemma {:induction false} CleanLinesOfSpace(parts: seq<string>)
    requires forall p :: p in parts ==> AllSpace(p)
    ensures CleanLines(parts) == []
  {
    if parts != [] {
      assert parts[0] in parts;
      assert forall p :: p in parts[1..] ==> p in parts;
      StripEmpty(parts[0]);
      CleanLinesOfSpace(parts[1..]);
    }
  }

  /** The description after the rewrites and the tag strip
      (src/data_loader.py:17-20), before it is cut into lines. */
  function PlainText(html: string): (text: string)
    ensures NoTagLeft(text)
  {
    StripTags(ReplaceAll(ReplaceAll(html, [ListItem], Bullet), BlockEnds, "\n"))
  }

  /** The pieces between newlines of a text without tags are one-line
      pieces without a tag. */
  lemma PiecesHaveNoTag(text: string)
    requires NoTagLeft(text)
    ensures forall p :: p in Split(text, '\n') ==> '\n' !in p && NoBracketPair(p)
  {
    var parts := Split(text, '\n');
    NoTagLeftPieces(parts);
    forall p | p in parts ensures NoBracketPair(p) {
      SingleLineHasNoBracketPair(p);
    }
  }

  /** The lines of a description: the text cut into stripped non-empty
      lines (src/data_loader.py:17-23). */
  function NoteLines(html: string): (lines: seq<string>)
    ensures forall l :: l in lines ==> CleanLine(l)
  {
    var text := PlainText(html);
    PiecesHaveNoTag(text);
    CleanLinesAreClean(Split(text, '\n'));
    CleanLines(Split(text, '\n'))
  }

  /** The table preview: the whole text when it fits in fifty characters,
      otherwise its first fifty followed by "...". */
  function Shorten(full: string): (r: string)
    ensures |r| <= PreviewLimit + 3
    ensures var keep := Min(PreviewLimit, |full|); |r| >= keep && r[..keep] == full[..keep]
    ensures |full| <= PreviewLimit ==> r == full
    ensures |full| > PreviewLimit ==> |r| == PreviewLimit + 3 && r[PreviewLimit..] == "..."
  {
    if |full| > PreviewLimit then full[..PreviewLimit] + "..." else full
  }

  /** `parse_html_description`.  A missing or empty description gives the
      placeholders; anything else the cleaned lines in three joins. */
  function ParseHtml(raw: Option<string>): (n: NoteForms)
    ensures raw == None || raw == Some("") ==> n == NoNotes
  {
    if raw.None? || raw.value == "" then NoNotes
    else
      var lines := NoteLines(raw.value);
      NoteForms(Join(lines, "<br>"), Join(lines, "\n"), Shorten(Join(lines, " ")))
  }

  // ---------------------------------------------------------------------
  // Properties of the three forms

  /** For a non-empty description, the detail text is a sequence of clean
      lines (each non-empty, stripped, without a tag), and the tooltip and
      the preview are built from exactly those lines. */
  lemma NotesAgree(html: string)
    requires html != ""
    ensures var n := ParseHtml(Some(html));
      var lines := if n.markdown == "" then [] else Split(n.markdown, '\n');
      && (forall l :: l in lines ==> CleanLine(l))
      && n.tooltip == Join(lines, "<br>")
      && n.short == Shorten(Join(lines, " "))
  {
    var lines := NoteLines(html);
    if lines != [] {
      assert lines[0] in lines;
      assert Join(lines, "\n") != "" by {
        JoinNonEmpty(lines, "\n");
      }
      SplitJoin(lines, '\n');
    }
  }

  /** A description without `<` is only cut into lines: no rewrite and no
      tag strip changes it, so its lines are the stripped non-blank lines
      of the text itself. */
  lemma PlainNoteLines(html: string)
    requires '<' !in html
    ensures NoteLines(html) == CleanLines(Split(html, '\n'))
  {
    assert ListItem[0] == '<';
    assert AllOpenTags([ListItem]) && AllOpenTags(BlockEnds);
    var t1 := ReplaceAll(html, [ListItem], Bullet);
    var t2 := ReplaceAll(t1, BlockEnds, "\n");
    ReplaceKeepsPlainText(html, [ListItem], Bullet);
    ReplaceKeepsPlainText(html, BlockEnds, "\n");
    assert t2 == html;
    StripTagsKeepsPlain(html, []);
    assert html + [] == html;
  }

  /** A non-blank one-line description without `<` is its own strip in all
      three forms. */
  lemma PlainOneLine(html: string)
    requires '<' !in html && '\n' !in html && Strip(html) != []
    ensures NoteLines(html) == [Strip(html)]
    ensures ParseHtml(Some(html)) == NoteForms(Strip(html), Strip(html), Shorten(Strip(html)))
  {
    PlainNoteLines(html);
    SplitNone(html, '\n');
    var l := Strip(html);
    assert NoteLines(html) == [l];
    assert ParseHtml(Some(html)) == NoteForms(Join([l], "<br>"), Join([l], "\n"), Shorten(Join([l], " ")));
  }

  lemma {:induction false} JoinNonEmpty(parts: seq<string>, sep: string)
    requires parts != [] && parts[0] != ""
    ensures Join(parts, sep) != ""
  {
    if |parts| > 1 {
      assert |Join(parts, sep)| >= |parts[0]|;
    }
  }
}

/** Descriptions made of markup only: whitespace and tags other than
    `<li>` (which leaves a bullet behind) clean to three empty strings,
    not to the placeholders. */
module NotesMarkup {

  import opened Common
  import opened Text
  import opened Notes

  /** A tag as the pattern `<.*?>` sees it: `<`, then no `<`, `>` or
      newline, then `>`. */
  predicate IsTag(t: string)
  {
    && |t| >= 2 && t[0] == '<' && t[|t| - 1] == '>'
    && forall i :: 0 < i < |t| - 1 ==> t[i] != '<' && t[i] != '>' && t[i] != '\n'
  }

  /** One whitespace character or one tag. */
  predicate IsMarkupPiece(p: string)
  {
    (|p| == 1 && IsSpace(p[0])) || IsTag(p)
  }

  /** The pieces after one `ReplaceAll` pass: each piece equal to one of
      the patterns becomes the replacement. */
  function Rewrite(pieces: seq<string>, pats: seq<string>, rep: string): (r: seq<string>)
    ensures |r| == |pieces|
  {
    if pieces == [] then []
    else [if pieces[0] in pats then rep else pieces[0]] + Rewrite(pieces[1..], pats, rep)
  }

  lemma JoinCons(pieces: seq<string>)
    requires pieces != []
    ensures Join(pieces, "") == pieces[0] + Join(pieces[1..], "")
  {
  }

  /** No pattern starts before a `<`. */
  lemma {:induction false} ReplaceSkipsPlainText(s: string, rest: string, pats: seq<string>, rep: string)
    requires forall p :: p in pats ==> IsTag(p) && p != []
    requires '<' !in s
    ensures ReplaceAll(s + rest, pats, rep) == s + ReplaceAll(rest, pats, rep)
    decreases |s|
  {
    if s != [] {
      var t := s + rest;
      forall k | 0 <= k < |pats| ensures !IsPrefix(pats[k], t) {
        assert pats[k] in pats;
      }
      assert FirstPrefix(t, pats).None?;
      assert ReplaceAll(t, pats, rep) == [t[0]] + ReplaceAll(t[1..], pats, rep);
      assert t[1..] == s[1..] + rest;
      ReplaceSkipsPlainText(s[1..], rest, pats, rep);
      assert t[0] == s[0];
      assert [s[0]] + (s[1..] + ReplaceAll(rest, pats, rep)) == s + ReplaceAll(rest, pats, rep);
    } else {
      assert s + rest == rest;
    }
  }

  /** Between tags, a pattern that matches at a tag's start is that tag. */
  lemma TagPrefix(p: string, t: string, rest: string)
    requires IsTag(p) && IsTag(t)
    ensures IsPrefix(p, t + rest) <==> p == t
  {
    var s := t + rest;
    assert s[..|t|] == t;
    if IsPrefix(p, s) {
      // the first `>` of `s` closes both
      assert s[|p| - 1] == p[|p| - 1];
      assert |p| - 1 < |t| ==> s[|p| - 1] == t[|p| - 1];
      assert |p| >= |t|;
      assert p[|t| - 1] == s[|t| - 1] == t[|t| - 1];
      assert |p| <= |t|;
      assert p == s[..|t|];
    }
  }

  lemma ReplaceTag(t: string, rest: string, pats: seq<string>, rep: string)
    requires forall p :: p in pats ==> IsTag(p) && p != []
    requires IsTag(t)
    ensures ReplaceAll(t + rest, pats, rep) == (if t in pats then rep else t) + ReplaceAll(rest, pats, rep)
  {
    var s := t + rest;
    forall k | 0 <= k < |pats| ensures IsPrefix(pats[k], s) <==> pats[k] == t {
      assert pats[k] in pats;
      TagPrefix(pats[k], t, rest);
    }
    if t in pats {
      var k := FirstPrefix(s, pats).value;
      assert pats[k] == t;
      assert s[|t|..] == rest;
    } else {
      assert FirstPrefix(s, pats).None?;
      assert '<' !in t[1..] by {
        assert forall i :: 0 <= i < |t| - 1 ==> t[1..][i] == t[i + 1];
      }
      assert s[1..] == t[1..] + rest;
      ReplaceSkipsPlainText(t[1..], rest, pats, rep);
      assert t == [t[0]] + t[1..];
    }
  }

  /** One replacement pass over markup rewrites it piece by piece. */
  lemma {:induction false} ReplaceMarkup(pieces: seq<string>, pats: seq<string>, rep: string)
    requires forall p :: p in pats ==> IsTag(p) && p != []
    requires forall p :: p in pieces ==> IsMarkupPiece(p)
    ensures ReplaceAll(Join(pieces, ""), pats, rep) == Join(Rewrite(pieces, pats, rep), "")
  {
    if pieces != [] {
      var p := pieces[0];
      assert p in pieces;
      JoinCons(pieces);
      JoinCons(Rewrite(pieces, pats, rep));
      assert Rewrite(pieces, pats, rep)[1..] == Rewrite(pieces[1..], pats, rep);
      assert forall q :: q in pieces[1..] ==> q in pieces;
      ReplaceMarkup(pieces[1..], pats, rep);
      if IsTag(p) {
        ReplaceTag(p, Join(pieces[1..], ""), pats, rep);
      } else {
        ReplaceSkipsPlainText(p, Join(pieces[1..], ""), pats, rep);
        assert !IsTag(p);
      }
    }
  }

  /** A pass whose patterns occur as no piece changes nothing. */
  lemma {:induction false} RewriteNothing(pieces: seq<string>, pats: seq<string>, rep: string)
    requires forall p :: p in pieces ==> p !in pats
    ensures Rewrite(pieces, pats, rep) == pieces
  {
    if pieces != [] {
      assert pieces[0] in pieces;
      assert forall q :: q in pieces[1..] ==> q in pieces;
      RewriteNothing(pieces[1..], pats, rep);
      assert pieces == [pieces[0]] + pieces[1..];
    }
  }

  /** Replacing tags by a newline leaves markup. */
  lemma {:induction false} RewriteKeepsMarkup(pieces: seq<string>, pats: seq<string>)
    requires forall p :: p in pieces ==> IsMarkupPiece(p)
    ensures forall p :: p in Rewrite(pieces, pats, "\n") ==> IsMarkupPiece(p)
  {
    if pieces != [] {
      assert pieces[0] in pieces;
      assert forall q :: q in pieces[1..] ==> q in pieces;
      RewriteKeepsMarkup(pieces[1..], pats);
      assert IsSpace('\n');
    }
  }

  /** After a `<`, the first `>` of a tag body is where the tag ends. */
  lemma {:induction false} TagEndOfTag(body: string, rest: string)
    requires forall i :: 0 <= i < |body| ==> body[i] != '>' && body[i] != '\n'
    ensures TagEnd(body + ">" + rest) == Some(|body|)
  {
    if body != [] {
      assert (body + ">" + rest)[1..] == body[1..] + ">" + rest;
      TagEndOfTag(body[1..], rest);
    }
  }

  /** A whole tag at the front is deleted. */
  lemma StripLeadingTag(p: string, rest: string)
    requires IsTag(p)
    ensures StripTags(p + rest) == StripTags(rest)
  {
    var s := p + rest;
    var body := p[1..|p| - 1];
    assert p == "<" + body + ">";
    assert forall i :: 0 <= i < |body| ==> body[i] == p[i + 1];
    assert s[1..] == body + ">" + rest;
    TagEndOfTag(body, rest);
    assert s[|body| + 2..] == rest;
  }

  /** A whitespace character at the front is kept. */
  lemma StripLeadingSpace(p: string, rest: string)
    requires |p| == 1 && IsSpace(p[0])
    requires AllSpace(StripTags(rest))
    ensures AllSpace(StripTags(p + rest))
  {
    var s := p + rest;
    assert s[1..] == rest;
    var r := StripTags(s);
    assert r == [p[0]] + StripTags(rest);
    assert forall k :: 1 <= k < |r| ==> r[k] == StripTags(rest)[k - 1];
  }

  /** Stripping tags from markup leaves only whitespace. */
  lemma {:induction false} StripMarkup(pieces: seq<string>)
    requires forall p :: p in pieces ==> IsMarkupPiece(p)
    ensures AllSpace(StripTags(Join(pieces, "")))
  {
    if pieces != [] {
      var p := pieces[0];
      var rest := Join(pieces[1..], "");
      assert p in pieces;
      assert forall q :: q in pieces[1..] ==> q in pieces;
      JoinCons(pieces);
      StripMarkup(pieces[1..]);
      if IsTag(p) {
        StripLeadingTag(p, rest);
      } else {
        StripLeadingSpace(p, rest);
      }
    }
  }

  lemma {:induction false} AllSpacePieces(parts: seq<string>, sep: string)
    requires AllSpace(Join(parts, sep))
    ensures forall p :: p in parts ==> AllSpace(p)
  {
    if |parts| > 1 {
      var s := Join(parts, sep);
      assert s == parts[0] + sep + Join(parts[1..], sep);
      var tail := Join(parts[1..], sep);
      assert forall k :: 0 <= k < |parts[0]| ==> parts[0][k] == s[k];
      assert forall k :: 0 <= k < |tail| ==> tail[k] == s[|parts[0]| + |sep| + k];
      AllSpacePieces(parts[1..], sep);
      assert forall p :: p in parts ==> p == parts[0] || p in parts[1..];
    }
  }

  lemma PatternsAreTags()
    ensures IsTag(ListItem)
    ensures forall p :: p in BlockEnds ==> IsTag(p) && p != []
  {
    assert IsTag("</li>") && IsTag("<br>") && IsTag("<br/>");
    assert IsTag("</p>") && IsTag("</div>") && IsTag("</ul>");
  }

  /** A non-empty description made only of whitespace and tags other than
      `<li>` gives empty tooltip, detail and preview, not the
      placeholders. */
  lemma MarkupOnlyGivesEmpty(pieces: seq<string>)
    requires pieces != []
    requires forall p :: p in pieces ==> IsMarkupPiece(p) && p != ListItem
    ensures Join(pieces, "") != ""
    ensures ParseHtml(Some(Join(pieces, ""))) == NoteForms("", "", "")
  {
    var html := Join(pieces, "");
    assert pieces[0] in pieces;
    JoinCons(pieces);
    assert |html| >= |pieces[0]| >= 1;
    MarkupHasNoLines(pieces);
    var lines := NoteLines(html);
    assert lines == [];
    assert ParseHtml(Some(html)) == NoteForms(Join(lines, "<br>"), Join(lines, "\n"), Shorten(Join(lines, " ")));
  }

  lemma MarkupHasNoLines(pieces: seq<string>)
    requires forall p :: p in pieces ==> IsMarkupPiece(p) && p != ListItem
    ensures NoteLines(Join(pieces, "")) == []
  {
    var html := Join(pieces, "");
    PatternsAreTags();
    ReplaceMarkup(pieces, [ListItem], Bullet);
    RewriteNothing(pieces, [ListItem], Bullet);
    var t1 := ReplaceAll(html, [ListItem], Bullet);
    assert t1 == html;
    var pieces2 := Rewrite(pieces, BlockEnds, "\n");
    ReplaceMarkup(pieces, BlockEnds, "\n");
    var t2 := ReplaceAll(t1, BlockEnds, "\n");
    assert t2 == Join(pieces2, "");
    RewriteKeepsMarkup(pieces, BlockEnds);
    StripMarkup(pieces2);
    var text := StripTags(t2);
    var parts := Split(text, '\n');
    AllSpacePieces(parts, "\n");
    CleanLinesOfSpace(parts);
    assert NoteLines(html) == CleanLines(parts);
  }
}
