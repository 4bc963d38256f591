/** The slug generator that the blog-post, forum-query and first-run controllers each carry a copy of:
    lower-case the title, drop every character outside [a-z0-9], whitespace and '-', collapse
    whitespace runs to one space, trim, turn the remaining spaces into '-', and (except in the
    first-run copy) append "-" and the entity's decimal id.

    Characters are modelled over ASCII: only 'A'..'Z' are lower-cased and whitespace is the six ASCII
    characters that the regular-expression class \s matches. */
module Slugs {

  // ---------------------------------------------------------------------------------------------
  // Character classes

  /** The ASCII characters matched by \s: space, and tab, line feed, vertical tab, form feed and carriage
      return, which are the consecutive code points 9 to 13. */
  predicate IsSpace(c: char) {
    c == ' ' || '\t' <= c <= '\r'
  }

  predicate IsLowerAlnum(c: char) {
    ('a' <= c <= 'z') || ('0' <= c <= '9')
  }

  /** The characters the pattern [^a-z0-9\s-] does not remove. */
  predicate IsKept(c: char) {
    IsLowerAlnum(c) || IsSpace(c) || c == '-'
  }

  /** The characters a slug body may contain. */
  predicate IsSlugChar(c: char) {
    IsLowerAlnum(c) || c == '-'
  }

  function LowerChar(c: char): (r: char)
    ensures 'A' <= c <= 'Z' ==> 'a' <= r <= 'z'
    ensures !('A' <= c <= 'Z') ==> r == c
  {
    if 'A' <= c <= 'Z' then (c as int + 32) as char else c
  }

  // ---------------------------------------------------------------------------------------------
  // The four transformation steps, in the order the source applies them

  /** title.ToLower() */
  function ToLower(s: string): (r: string)
    ensures |r| == |s|
  {
    if s == [] then [] else [LowerChar(s[0])] + ToLower(s[1..])
  }

  /** Regex.Replace(slug, "[^a-z0-9\s-]", "") */
  function Strip(s: string): (r: string)
    ensures |r| <= |s|
    ensures AllKept(r)
  {
    if s == [] then [] else (if IsKept(s[0]) then [s[0]] else []) + Strip(s[1..])
  }

  /** Drops the leading whitespace run; this is also String.Trim() at the front. */
  function DropSpaces(s: string): (r: string)
    ensures |r| <= |s|
    ensures r == [] || !IsSpace(r[0])
    ensures forall i :: 0 <= i < |s| - |r| ==> IsSpace(s[i])
  {
    if s != [] && IsSpace(s[0]) then DropSpaces(s[1..]) else s
  }

  /** Regex.Replace(slug, "\s+", " "): each maximal whitespace run becomes one space. */
  function Collapse(s: string): (r: string)
    ensures |r| <= |s|
    decreases |s|
  {
    if s == [] then []
    else if IsSpace(s[0]) then [' '] + Collapse(DropSpaces(s))
    else [s[0]] + Collapse(s[1..])
  }

  /** Drops the trailing whitespace run (String.Trim() at the back). */
  function TrimEnd(s: string): (r: string)
    ensures |r| <= |s| && r == s[..|r|]
    ensures r == [] || !IsSpace(r[|r| - 1])
  {
    if s != [] && IsSpace(s[|s| - 1]) then TrimEnd(s[..|s| - 1]) else s
  }

  /** String.Trim() */
  function Trim(s: string): (r: string)
    ensures |r| <= |s|
    ensures r == [] || (!IsSpace(r[0]) && !IsSpace(r[|r| - 1]))
  {
    TrimEnd(DropSpaces(s))
  }

  /** Regex.Replace(slug, "\s", "-") */
  function Dashes(s: string): (r: string)
    ensures |r| == |s|
  {
    if s == [] then [] else [if IsSpace(s[0]) then '-' else s[0]] + Dashes(s[1..])
  }

  /** The slug without an id suffix (FirstRunController.generateSlug). */
  function SlugBase(title: string): (r: string)
    ensures forall i :: 0 <= i < |r| ==> IsSlugChar(r[i])
  {
    var a := Strip(ToLower(title));
    CollapseKept(a);
    var b := Collapse(a);
    var t := DropSpaces(b);
    DropSpacesSuffix(b);
    KeptSlice(b, |b| - |t|, |b|);
    var c := TrimEnd(t);
    KeptSlice(t, 0, |c|);
    DashesSlugChars(c);
    Dashes(Trim(Collapse(Strip(ToLower(title)))))
  }

  /** The slug with the id suffix (ForumQueryController.generateSlug, BlogPostsController.generateSlug). */
  function Slug(title: string, id: int): (r: string)
    ensures id >= 0 ==> LastSegment(r) == IntToString(id)
  {
    if id >= 0 then LastSegmentAfterDash(SlugBase(title), IntToString(id)); SlugBase(title) + "-" + IntToString(id)
    else SlugBase(title) + "-" + IntToString(id)
  }

  // ---------------------------------------------------------------------------------------------
  // Decimal rendering of the id (long.ToString()) and its inverse

  function Digit(d: nat): char
    requires d < 10
  {
    "0123456789"[d]
  }

  function NatToString(n: nat): (r: string)
    ensures |r| > 0
    ensures forall i :: 0 <= i < |r| ==> '0' <= r[i] <= '9'
  {
    if n < 10 then [Digit(n)] else NatToString(n / 10) + [Digit(n % 10)]
  }

  function IntToString(i: int): (r: string)
    ensures |r| > 0 && (r[0] == '-' <==> i < 0)
    ensures i >= 0 ==> ParseNat(r) == i
  {
    if i < 0 then "-" + NatToString(-i) else ParseNatToString(i); NatToString(i)
  }

  /** Reads a run of decimal digits back as a number. */
  function ParseNat(s: string): nat
  {
    if s == [] then 0
    else
      var c := s[|s| - 1];
      ParseNat(s[..|s| - 1]) * 10 + (if '0' <= c <= '9' then c as int - '0' as int else 0)
  }

  /** The characters after the last '-' (the whole string when there is none). */
  function LastSegment(s: string): (r: string)
    ensures |r| <= |s|
  {
    if s == [] || s[|s| - 1] == '-' then [] else LastSegment(s[..|s| - 1]) + [s[|s| - 1]]
  }

  // ---------------------------------------------------------------------------------------------
  // Reference definition: the words of the stripped title joined by '-'

  /** The longest prefix without whitespace. */
  function TakeWord(s: string): (w: string)
    ensures |w| <= |s| && w == s[..|w|]
    ensures forall i :: 0 <= i < |w| ==> !IsSpace(w[i])
    ensures |w| < |s| ==> IsSpace(s[|w|])
    ensures s != [] && !IsSpace(s[0]) ==> IsWord(w)
  {
    if s == [] || IsSpace(s[0]) then [] else [s[0]] + TakeWord(s[1..])
  }

  /** The maximal whitespace-free runs of s, in order. */
  function Words(s: string): seq<string>
    decreases |s|
  {
    var t := DropSpaces(s);
    if t == [] then []
    else
      var w := TakeWord(t);
      [w] + Words(t[|w|..])
  }

  function Join(ws: seq<string>, sep: string): string
  {
    if |ws| == 0 then []
    else if |ws| == 1 then ws[0]
    else ws[0] + sep + Join(ws[1..], sep)
  }

  /** A non-empty run without whitespace. */
  predicate IsWord(w: string)
  {
    |w| > 0 && forall i :: 0 <= i < |w| ==> !IsSpace(w[i])
  }

  /** A word list as the slug sees it. */
  predicate ProperWords(ws: seq<string>)
  {
    forall k :: 0 <= k < |ws| ==> IsWord(ws[k])
  }

  predicate AllKept(s: string)
  {
    forall i :: 0 <= i < |s| ==> IsKept(s[i])
  }

  // ---------------------------------------------------------------------------------------------
  // Lemmas: the transform chain (SlugBase) equals the reference

  lemma {:induction false} CollapseWord(s: string)
    requires s != [] && !IsSpace(s[0])
    ensures Collapse(s) == TakeWord(s) + Collapse(s[|TakeWord(s)|..])
    decreases |s|
  {
    var rest := s[1..];
    assert Collapse(s) == [s[0]] + Collapse(rest);
    assert TakeWord(s) == [s[0]] + TakeWord(rest);
    if rest == [] || IsSpace(rest[0]) {
      assert TakeWord(rest) == [];
      assert s[|TakeWord(s)|..] == rest;
    } else {
      CollapseWord(rest);
      var k := |TakeWord(rest)|;
      assert s[|TakeWord(s)|..] == rest[k..];
    }
  }

  /** Every element of Words(s) is a non-empty run without whitespace. */
  lemma {:induction false} WordsAreWords(s: string)
    ensures ProperWords(Words(s))
    decreases |s|
  {
    var t := DropSpaces(s);
    if t != [] {
      var w := TakeWord(t);
      var rest := t[|w|..];
      WordsAreWords(rest);
      var ws := Words(s);
      assert ws == [w] + Words(rest);
      forall k | 0 <= k < |ws| ensures IsWord(ws[k]) {
        if k > 0 {
          assert ws[k] == Words(rest)[k - 1];
        }
      }
    }
  }

  lemma AppendAssoc(a: string, b: string, c: string)
    ensures a + (b + c) == a + b + c
  {
  }

  lemma EmptyAppend(a: string)
    ensures [] + a == a
  {
  }

  /** DropSpaces(s) is a suffix of s. */
  lemma {:induction false} DropSpacesSuffix(s: string)
    ensures DropSpaces(s) == s[|s| - |DropSpaces(s)|..]
  {
    if s != [] && IsSpace(s[0]) {
      DropSpacesSuffix(s[1..]);
      assert s[1..][|s| - 1 - |DropSpaces(s)|..] == s[|s| - |DropSpaces(s)|..];
    }
  }

  lemma {:induction false} WordsSkipSpaces(s: string)
    ensures Words(DropSpaces(s)) == Words(s)
  {
    var t := DropSpaces(s);
    assert DropSpaces(t) == t;
  }

  lemma {:induction false} JoinHead(ws: seq<string>, sep: string)
    requires |ws| > 0 && |ws[0]| > 0
    ensures |Join(ws, sep)| > 0 && Join(ws, sep)[0] == ws[0][0]
  {
  }

  lemma {:induction false} JoinLast(ws: seq<string>, sep: string)
    requires ProperWords(ws) && |ws| > 0
    ensures |Join(ws, sep)| > 0
    ensures Join(ws, sep)[|Join(ws, sep)| - 1] == ws[|ws| - 1][|ws[|ws| - 1]| - 1]
  {
    if |ws| > 1 {
      JoinLast(ws[1..], sep);
    }
  }

  function Lead(s: string): string
  {
    if s != [] && IsSpace(s[0]) then " " else ""
  }

  function Trail(s: string): string
  {
    if DropSpaces(s) != [] && IsSpace(s[|s| - 1]) then " " else ""
  }

  /** The shape CollapseShape establishes, as a predicate so that the steps can assume it of the rest. */
  predicate HasCollapseShape(s: string)
  {
    Collapse(s) == Lead(s) + Join(Words(s), " ") + Trail(s)
  }

  lemma {:induction false} ShapeAfterSpaces(s: string)
    requires s != [] && IsSpace(s[0])
    requires HasCollapseShape(DropSpaces(s))
    ensures HasCollapseShape(s)
  {
    var t := DropSpaces(s);
    var j, tr := Join(Words(s), " "), Trail(s);
    assert Collapse(t) == j + tr by {
      WordsSkipSpaces(s);
      assert DropSpaces(t) == t;
      assert Lead(t) == [];
      if t != [] {
        DropSpacesSuffix(s);
        assert t[|t| - 1] == s[|s| - 1];
      }
      assert Trail(t) == tr;
      EmptyAppend(j);
    }
    assert Collapse(s) == " " + Collapse(t);
    AppendAssoc(" ", j, tr);
    assert Lead(s) == " ";
  }

  lemma {:induction false} WordsAtWord(s: string)
    requires s != [] && !IsSpace(s[0])
    ensures Words(s) == [TakeWord(s)] + Words(s[|TakeWord(s)|..])
  {
    assert DropSpaces(s) == s;
  }

  lemma {:induction false} ShapeAtLastWord(s: string)
    requires s != [] && !IsSpace(s[0])
    requires s[|TakeWord(s)|..] == []
    ensures HasCollapseShape(s)
  {
    var w := TakeWord(s);
    CollapseWord(s);
    WordsAtWord(s);
    assert Collapse(s) == w;
    assert Words(s) == [w];
    assert s[|s| - 1] == w[|w| - 1];
  }

  lemma {:induction false} ShapeBeforeSpaces(s: string)
    requires s != [] && !IsSpace(s[0])
    requires s[|TakeWord(s)|..] != [] && Words(s[|TakeWord(s)|..]) == []
    requires HasCollapseShape(s[|TakeWord(s)|..])
    ensures HasCollapseShape(s)
  {
    var w := TakeWord(s);
    var r := s[|w|..];
    CollapseWord(s);
    WordsAtWord(s);
    assert Lead(r) == " ";
    assert Trail(r) == [];
    assert Join(Words(r), " ") == [];
    assert " " + [] + [] == " ";
    assert Collapse(r) == " ";
    assert r[|r| - 1] == s[|s| - 1];
    assert Words(s) == [w];
    assert Trail(s) == " ";
    assert Lead(s) == [];
    assert [] + w == w;
  }

  lemma {:induction false} ShapeBeforeWords(s: string)
    requires s != [] && !IsSpace(s[0])
    requires s[|TakeWord(s)|..] != [] && Words(s[|TakeWord(s)|..]) != []
    requires HasCollapseShape(s[|TakeWord(s)|..])
    ensures HasCollapseShape(s)
  {
    var w := TakeWord(s);
    var r := s[|w|..];
    var jr, tr := Join(Words(r), " "), Trail(s);
    assert Collapse(r) == " " + jr + tr by {
      assert Lead(r) == " ";
      assert r[|r| - 1] == s[|s| - 1];
      assert Trail(r) == tr;
    }
    var j := Join(Words(s), " ");
    assert j == w + " " + jr by {
      WordsAtWord(s);
    }
    assert Collapse(s) == w + Collapse(r) by {
      CollapseWord(s);
    }
    AppendAssoc(w, " " + jr, tr);
    AppendAssoc(w, " ", jr);
    assert Lead(s) == [];
    EmptyAppend(j);
  }

  /** Collapse keeps at most one space before, between and after the words. */
  lemma {:induction false} CollapseShape(s: string)
    ensures HasCollapseShape(s)
    decreases |s|
  {
    if s == [] {
    } else if IsSpace(s[0]) {
      CollapseShape(DropSpaces(s));
      ShapeAfterSpaces(s);
    } else {
      var r := s[|TakeWord(s)|..];
      if r == [] {
        ShapeAtLastWord(s);
      } else {
        CollapseShape(r);
        if Words(r) == [] {
          ShapeBeforeSpaces(s);
        } else {
          ShapeBeforeWords(s);
        }
      }
    }
  }

  lemma {:induction false} TrimEndOfProper(x: string)
    requires x == [] || !IsSpace(x[|x| - 1])
    ensures TrimEnd(x) == x && TrimEnd(x + " ") == x
  {
    assert (x + " ")[..|x + " "| - 1] == x;
  }

  lemma {:induction false} DropLead(y: string)
    requires y == [] || !IsSpace(y[0])
    ensures DropSpaces(y) == y && DropSpaces(" " + y) == y
  {
    assert (" " + y)[1..] == y;
  }

  /** Trim(Collapse(s)) is the words of s separated by single spaces. */
  lemma {:induction false} TrimCollapse(s: string)
    ensures Trim(Collapse(s)) == Join(Words(s), " ")
  {
    CollapseShape(s);
    var ws := Words(s);
    WordsAreWords(s);
    var j, tr, ld := Join(ws, " "), Trail(s), Lead(s);
    var y := j + tr;
    assert Collapse(s) == ld + y by {
      AppendAssoc(ld, j, tr);
    }
    if ws == [] {
      assert y == [];
      assert TrimEnd([]) == [];
      if ld == [] {
        assert Collapse(s) == [];
      } else {
        assert Collapse(s) == " ";
        assert DropSpaces(" ")  == [];
      }
    } else {
      JoinHead(ws, " ");
      JoinLast(ws, " ");
      assert y[0] == j[0];
      DropLead(y);
      EmptyAppend(y);
      assert DropSpaces(Collapse(s)) == y;
      TrimEndOfProper(j);
      if tr == [] {
        assert y == j;
      }
    }
  }

  lemma {:induction false} DashesAppend(a: string, b: string)
    ensures Dashes(a + b) == Dashes(a) + Dashes(b)
  {
    if a != [] {
      DashesAppend(a[1..], b);
      assert (a + b)[1..] == a[1..] + b;
    } else {
      assert a + b == b;
    }
  }

  lemma {:induction false} DashesOfWord(w: string)
    requires forall i :: 0 <= i < |w| ==> !IsSpace(w[i])
    ensures Dashes(w) == w
  {
    if w != [] {
      DashesOfWord(w[1..]);
    }
  }

  lemma {:induction false} DashesJoin(ws: seq<string>)
    requires ProperWords(ws)
    ensures Dashes(Join(ws, " ")) == Join(ws, "-")
  {
    if |ws| == 1 {
      DashesOfWord(ws[0]);
    } else if |ws| > 1 {
      var w, rest := ws[0], Join(ws[1..], " ");
      assert IsWord(w);
      assert ProperWords(ws[1..]) by {
        forall k | 0 <= k < |ws[1..]| ensures IsWord(ws[1..][k]) {
          assert ws[1..][k] == ws[k + 1];
        }
      }
      DashesJoin(ws[1..]);
      DashesOfWord(w);
      assert Dashes(" ") == "-";
      DashesAppend(w + " ", rest);
      DashesAppend(w, " ");
      assert Join(ws, " ") == w + " " + rest;
      assert Join(ws, "-") == w + "-" + Join(ws[1..], "-");
    }
  }

  /** The slug body is the words of the cleaned, lower-cased title joined by single dashes:
      every interior whitespace run becomes exactly one '-', and leading or trailing whitespace
      leaves no dash. */
  lemma SlugBaseIsJoinedWords(title: string)
    ensures SlugBase(title) == Join(Words(Strip(ToLower(title))), "-")
  {
    var s := Strip(ToLower(title));
    TrimCollapse(s);
    WordsAreWords(s);
    DashesJoin(Words(s));
  }

  /** Lower-casing works character by character. */
  lemma {:induction false} ToLowerAt(s: string)
    ensures forall i :: 0 <= i < |s| ==> ToLower(s)[i] == LowerChar(s[i])
  {
    if s != [] {
      ToLowerAt(s[1..]);
      forall i | 1 <= i < |s| ensures ToLower(s)[i] == LowerChar(s[i]) {
        assert ToLower(s)[i] == ToLower(s[1..])[i - 1];
      }
    }
  }

  /** Stripping keeps exactly the kept characters, and leaves an already clean string alone. */
  lemma {:induction false} StripKeepsExactly(s: string)
    ensures AllKept(s) ==> Strip(s) == s
    ensures forall c :: c in Strip(s) <==> c in s && IsKept(c)
  {
    if s != [] {
      StripKeepsExactly(s[1..]);
      assert s == [s[0]] + s[1..];
      forall c ensures c in s <==> c == s[0] || c in s[1..] {
      }
    }
  }

  /** After collapsing, whitespace is a single space and never two in a row; a leading non-space
      character stays in front. */
  lemma {:induction false} CollapseNoRuns(s: string)
    ensures s != [] && !IsSpace(s[0]) ==> Collapse(s) != [] && Collapse(s)[0] == s[0]
    ensures forall i :: 0 <= i < |Collapse(s)| && IsSpace(Collapse(s)[i]) ==> Collapse(s)[i] == ' '
    ensures forall i :: 0 <= i < |Collapse(s)| - 1 ==> !(IsSpace(Collapse(s)[i]) && IsSpace(Collapse(s)[i + 1]))
    decreases |s|
  {
    if s != [] {
      var rest := if IsSpace(s[0]) then DropSpaces(s) else s[1..];
      CollapseNoRuns(rest);
      var c := Collapse(s);
      assert c == [if IsSpace(s[0]) then ' ' else s[0]] + Collapse(rest);
      forall i | 1 <= i < |c| ensures c[i] == Collapse(rest)[i - 1] {
      }
    }
  }

  /** Dashing replaces each whitespace character by '-' and nothing else, so no whitespace is left. */
  lemma {:induction false} DashesAt(s: string)
    ensures forall i :: 0 <= i < |s| ==> Dashes(s)[i] == (if IsSpace(s[i]) then '-' else s[i])
    ensures forall i :: 0 <= i < |Dashes(s)| ==> !IsSpace(Dashes(s)[i])
  {
    if s != [] {
      DashesAt(s[1..]);
      forall i | 1 <= i < |s| ensures Dashes(s)[i] == Dashes(s[1..])[i - 1] {
      }
    }
  }

  /** Stripping distributes over concatenation: it looks at one character at a time. */
  lemma {:induction false} StripAppend(a: string, b: string)
    ensures Strip(a + b) == Strip(a) + Strip(b)
  {
    if a == [] {
      assert a + b == b;
    } else {
      var head := if IsKept(a[0]) then [a[0]] else [];
      calc {
        Strip(a + b);
        { assert (a + b)[0] == a[0] && (a + b)[1..] == a[1..] + b; }
        head + Strip(a[1..] + b);
        { StripAppend(a[1..], b); }
        head + (Strip(a[1..]) + Strip(b));
        (head + Strip(a[1..])) + Strip(b);
      }
    }
  }

  lemma {:induction false} KeptSlice(s: string, i: nat, j: nat)
    requires AllKept(s) && i <= j <= |s|
    ensures AllKept(s[i..j])
  {
    forall k | 0 <= k < j - i ensures IsKept(s[i..j][k]) {
      assert s[i..j][k] == s[i + k];
    }
  }

  lemma {:induction false} CollapseKept(s: string)
    requires AllKept(s)
    ensures AllKept(Collapse(s))
    decreases |s|
  {
    if s != [] {
      var rest := if IsSpace(s[0]) then DropSpaces(s) else s[1..];
      DropSpacesSuffix(s);
      KeptSlice(s, |s| - |rest|, |s|);
      assert rest == s[|s| - |rest|..];
      CollapseKept(rest);
      var c := Collapse(s);
      assert c == [if IsSpace(s[0]) then ' ' else s[0]] + Collapse(rest);
      forall k | 0 <= k < |c| ensures IsKept(c[k]) {
        if k > 0 {
          assert c[k] == Collapse(rest)[k - 1];
        }
      }
    }
  }

  lemma {:induction false} DashesSlugChars(s: string)
    requires AllKept(s)
    ensures forall i :: 0 <= i < |Dashes(s)| ==> IsSlugChar(Dashes(s)[i])
  {
    if s != [] {
      KeptSlice(s, 1, |s|);
      DashesSlugChars(s[1..]);
      var d := Dashes(s);
      assert IsKept(s[0]);
      forall i | 0 <= i < |d| ensures IsSlugChar(d[i]) {
        if i > 0 {
          assert d[i] == Dashes(s[1..])[i - 1];
        }
      }
    }
  }

  /** A title without letters, digits or dashes leaves an empty body, so the slug is "-" + id. */
  lemma EmptyBody(title: string, id: int)
    requires forall i :: 0 <= i < |title| ==> !IsLowerAlnum(LowerChar(title[i])) && title[i] != '-'
    ensures SlugBase(title) == ""
    ensures Slug(title, id) == "-" + IntToString(id)
  {
    var s := Strip(ToLower(title));
    NoSlugCharsSurvive(title);
    DropAllSpaces(s);
    SlugBaseIsJoinedWords(title);
  }

  lemma {:induction false} DropAllSpaces(s: string)
    requires forall i :: 0 <= i < |s| ==> IsSpace(s[i])
    ensures DropSpaces(s) == []
  {
    if s != [] {
      DropAllSpaces(s[1..]);
    }
  }

  lemma {:induction false} NoSlugCharsSurvive(title: string)
    requires forall i :: 0 <= i < |title| ==> !IsLowerAlnum(LowerChar(title[i])) && title[i] != '-'
    ensures forall i :: 0 <= i < |Strip(ToLower(title))| ==> IsSpace(Strip(ToLower(title))[i])
  {
    if title != [] {
      NoSlugCharsSurvive(title[1..]);
      assert ToLower(title)[1..] == ToLower(title[1..]);
    }
  }

  // ---------------------------------------------------------------------------------------------
  // The id suffix makes slugs unique

  lemma {:induction false} ParseNatToString(n: nat)
    ensures ParseNat(NatToString(n)) == n
  {
    if n >= 10 {
      ParseNatToString(n / 10);
      var s := NatToString(n);
      assert s[..|s| - 1] == NatToString(n / 10);
    } else {
      assert NatToString(n)[..0] == [];
    }
  }

  lemma {:induction false} LastSegmentAfterDash(a: string, b: string)
    requires forall i :: 0 <= i < |b| ==> b[i] != '-'
    ensures LastSegment(a + "-" + b) == b
    decreases |b|
  {
    var s := a + "-" + b;
    if b == [] {
    } else {
      assert s[..|s| - 1] == a + "-" + b[..|b| - 1];
      LastSegmentAfterDash(a, b[..|b| - 1]);
      assert b[..|b| - 1] + [b[|b| - 1]] == b;
    }
  }

  /** Two entities with different ids never share a slug, whatever their titles. */
  lemma DistinctIdsDistinctSlugs(title1: string, id1: nat, title2: string, id2: nat)
    requires id1 != id2
    ensures Slug(title1, id1) != Slug(title2, id2)
  {
  }

  // ---------------------------------------------------------------------------------------------
  // Examples

  lemma JoinTwo(x: string, y: string, sep: string)
    ensures Join([x, y], sep) == x + sep + y
  {
    assert [x, y][1..] == [y];
  }

  lemma {:induction false} TakeWhole(w: string)
    requires forall i :: 0 <= i < |w| ==> !IsSpace(w[i])
    ensures TakeWord(w) == w
  {
    if w != [] {
      TakeWhole(w[1..]);
    }
  }

  /** A title that is one word already is its own only word. */
  lemma WordsOfWord(w: string)
    requires IsWord(w)
    ensures Words(w) == [w]
  {
    TakeWhole(w);
    assert DropSpaces(w) == w;
    assert w[|w|..] == [];
  }

  lemma WordsOfOne(b: char)
    requires !IsSpace(b)
    ensures Words([b]) == [[b]] && Words([' ', b]) == [[b]]
  {
    assert DropSpaces([b]) == [b];
    assert TakeWord([b]) == [b];
    assert [b][1..] == [];
    assert DropSpaces([' ', b]) == DropSpaces([' ', b][1..]);
    assert [' ', b][1..] == [b];
  }

  lemma WordsOfTwo(a: char, b: char)
    requires !IsSpace(a) && !IsSpace(b)
    ensures Words([a, ' ', b]) == [[a], [b]]
  {
    var s := [a, ' ', b];
    WordsOfOne(b);
    WordsAtWord(s);
    assert s[1..] == [' ', b];
    assert TakeWord([' ', b]) == [];
    assert TakeWord(s) == [a] + TakeWord([' ', b]);
    assert TakeWord(s) == [a];
    assert Words(s) == [[a]] + Words([' ', b]);
    assert [[a]] + [[b]] == [[a], [b]];
  }

  lemma ShortTitleCleaned()
    ensures Strip(ToLower("A b!")) == "a b"
  {
    assert ToLower("!") == "!";
    assert ToLower("b!") == "b!";
    assert ToLower(" b!") == " b!";
    assert ToLower("A b!") == "a b!";
    assert Strip("!") == "";
    assert Strip("b!") == "b";
    assert Strip(" b!") == " b";
    assert Strip("a b!") == "a b";
  }

  lemma ShortTitleBody(title: string)
    requires title == "A b!"
    ensures SlugBase(title) == "a-b"
  {
    SlugBaseIsJoinedWords(title);
    assert Strip(ToLower(title)) == "a b" by {
      ShortTitleCleaned();
    }
    assert Words("a b") == ["a", "b"] by {
      WordsOfTwo('a', 'b');
    }
    JoinTwo("a", "b", "-");
  }

  /** Upper case is lowered, punctuation dropped, the space becomes a dash and the id follows. */
  lemma ExampleShortTitle(title: string)
    requires title == "A b!"
    ensures Slug(title, 7) == "a-b-7"
  {
    ShortTitleBody(title);
    var body := SlugBase(title);
    assert IntToString(7) == "7";
    assert body + "-" + "7" == "a-b-7";
  }

  lemma SpacedTitleWords()
    ensures Words(" x  y ") == ["x", "y"]
  {
    assert DropSpaces(" ") == [];
    assert Words(" ") == [];
    assert TakeWord("y ") == "y";
    assert Words("y ") == ["y"] + Words(" ");
    assert DropSpaces("  y ") == "y ";
    assert Words("  y ") == ["y"];
    assert TakeWord("x  y ") == "x";
    assert Words("x  y ") == ["x"] + Words("  y ");
    assert DropSpaces(" x  y ") == "x  y ";
  }

  lemma SpacedTitleCleaned()
    ensures Strip(ToLower(" x  y ")) == " x  y "
  {
    assert ToLower(" ") == " ";
    assert ToLower("y ") == "y ";
    assert ToLower(" y ") == " y ";
    assert ToLower("  y ") == "  y ";
    assert ToLower("x  y ") == "x  y ";
    assert ToLower(" x  y ") == " x  y ";
    assert Strip(" ") == " ";
    assert Strip("y ") == "y ";
    assert Strip(" y ") == " y ";
    assert Strip("  y ") == "  y ";
    assert Strip("x  y ") == "x  y ";
  }

  /** Leading and trailing whitespace leaves no dash; an interior run leaves exactly one. */
  lemma ExampleSpacedTitle(title: string)
    requires title == " x  y "
    ensures SlugBase(title) == "x-y"
  {
    SpacedTitleCleaned();
    SpacedTitleWords();
    SlugBaseIsJoinedWords(title);
    JoinTwo("x", "y", "-");
  }

  lemma ExampleAllSpaces()
    ensures Slug("   ", 1) == "-1"
  {
    EmptyBody("   ", 1);
  }

  lemma GeneralCleaned()
    ensures Strip(ToLower("General")) == "general"
  {
    assert ToLower("General") == "general";
    assert Strip("general") == "general";
  }

  /** The first-run category "General" gets the slug "general". */
  lemma ExampleGeneral(title: string)
    requires title == "General"
    ensures SlugBase(title) == "general"
  {
    GeneralCleaned();
    assert IsWord("general");
    WordsOfWord("general");
    SlugBaseIsJoinedWords(title);
  }
}
