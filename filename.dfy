/**
 * The name of the downloaded file (src/main.ts:120): the final extension of the
 * input file name is matched by a regular expression and replaced by a template
 * made of `-`, the palette slug and a back-reference to the extension.  The
 * slug is the palette name lower-cased with every run of white space turned
 * into one `-`.
 */
module FileName {
  import opened Chars

  /** A character of the class `\s`. */
  predicate IsSpace(c: char) {
    c == ' ' || c == '\t' || c == '\n' || c == '\r' || c == '\U{000B}' || c == '\U{000C}' ||
    c == '\U{00A0}' || c == '\U{1680}' || '\U{2000}' <= c <= '\U{200A}' ||
    c == '\U{2028}' || c == '\U{2029}' || c == '\U{202F}' || c == '\U{205F}' ||
    c == '\U{3000}' || c == '\U{FEFF}'
  }

  /** What is left once the run of white space at the front is gone. */
  function DropSpaces(s: string): (r: string)
    ensures |r| <= |s| && r == s[|s| - |r|..]
    ensures forall i :: 0 <= i < |s| - |r| ==> IsSpace(s[i])
    ensures r == [] || !IsSpace(r[0])
    ensures s != [] && IsSpace(s[0]) ==> |r| < |s|
  {
    if s != [] && IsSpace(s[0]) then DropSpaces(s[1..]) else s
  }

  /** Dropping leading white space keeps every other character that occurs. */
  lemma {:induction false} DropSpacesKeeps(s: string)
    ensures forall c :: !IsSpace(c) ==> (c in DropSpaces(s) <==> c in s)
  {
    if s != [] && IsSpace(s[0]) {
      DropSpacesKeeps(s[1..]);
      assert s == [s[0]] + s[1..];
    }
  }

  /** `s.replace(/\s+/g, '-')`: every maximal run of white space becomes a single `-`. */
  function CollapseSpaces(s: string): (r: string)
    ensures |r| <= |s|
    ensures forall i :: 0 <= i < |r| ==> !IsSpace(r[i])
    decreases |s|
  {
    if s == [] then []
    else if IsSpace(s[0]) then "-" + CollapseSpaces(DropSpaces(s))
    else [s[0]] + CollapseSpaces(s[1..])
  }

  /** Collapsing keeps every character other than `-` and white space that occurs, and adds none. */
  lemma {:induction false} CollapseSpacesKeeps(s: string)
    ensures forall c :: c != '-' && !IsSpace(c) ==> (c in CollapseSpaces(s) <==> c in s)
    decreases |s|
  {
    if s != [] {
      if IsSpace(s[0]) {
        DropSpacesKeeps(s);
        CollapseSpacesKeeps(DropSpaces(s));
      } else {
        CollapseSpacesKeeps(s[1..]);
        assert s == [s[0]] + s[1..];
      }
    }
  }

  /** `DropSpaces` on text that starts with white space. */
  lemma DropSpacesStep(s: string)
    requires s != [] && IsSpace(s[0])
    ensures DropSpaces(s) == DropSpaces(s[1..])
  {
  }

  /** One step of the two lemmas below: `u` starts with white space, so one character goes. */
  lemma DropSpacesAppendStep(u: string, v: string)
    requires u != [] && IsSpace(u[0])
    ensures DropSpaces(u) == DropSpaces(u[1..])
    ensures DropSpaces(u + v) == DropSpaces(u[1..] + v)
  {
    var w := u + v;
    assert w[0] == u[0] && w[1..] == u[1..] + v;
    DropSpacesStep(w);
  }

  /** Leading white space that is all of `u` is dropped together with the white space that follows in `v`. */
  lemma {:induction false} DropSpacesAcrossAll(u: string, v: string)
    requires DropSpaces(u) == []
    ensures DropSpaces(u + v) == DropSpaces(v)
  {
    if u != [] {
      assert IsSpace(u[0]);
      DropSpacesAppendStep(u, v);
      DropSpacesAcrossAll(u[1..], v);
    } else {
      assert u + v == v;
    }
  }

  /** When `u` holds something other than white space, dropping stops inside `u`. */
  lemma {:induction false} DropSpacesWithin(u: string, v: string)
    requires DropSpaces(u) != []
    ensures DropSpaces(u + v) == DropSpaces(u) + v
  {
    if IsSpace(u[0]) {
      DropSpacesAppendStep(u, v);
      DropSpacesWithin(u[1..], v);
    } else {
      assert (u + v)[0] == u[0];
    }
  }

  /** Text without white space is left as it is. */
  lemma {:induction false} CollapseWithoutSpaces(s: string)
    requires forall i :: 0 <= i < |s| ==> !IsSpace(s[i])
    ensures CollapseSpaces(s) == s
  {
    if s != [] {
      CollapseWithoutSpaces(s[1..]);
      assert s == [s[0]] + s[1..];
    }
  }

  /** A run of white space, however long, becomes one `-`. */
  lemma CollapseRun(w: string)
    requires |w| > 0 && forall i :: 0 <= i < |w| ==> IsSpace(w[i])
    ensures CollapseSpaces(w) == "-"
  {
    assert DropSpaces(w) == [];
  }

  /** `CollapseSpaces` on text that starts with a character that is not white space. */
  lemma CollapseWordStep(s: string)
    requires s != [] && !IsSpace(s[0])
    ensures CollapseSpaces(s) == [s[0]] + CollapseSpaces(s[1..])
  {
  }

  /** `CollapseSpaces` on text that starts with white space. */
  lemma CollapseRunStep(s: string)
    requires s != [] && IsSpace(s[0])
    ensures CollapseSpaces(s) == ['-'] + CollapseSpaces(DropSpaces(s))
  {
  }

  /** The same, for text `u + v` whose first character comes from `u`. */
  lemma CollapseWordAppend(u: string, v: string)
    requires u != [] && !IsSpace(u[0])
    ensures CollapseSpaces(u + v) == [u[0]] + CollapseSpaces(u[1..] + v)
  {
    var w := u + v;
    assert w[0] == u[0] && w[1..] == u[1..] + v;
    CollapseWordStep(w);
  }

  /** One step of `CollapseSplit` when `u` starts with a character that is not white space. */
  lemma CollapseSplitWord(u: string, v: string)
    requires u != [] && !IsSpace(u[0])
    requires CollapseSpaces(u[1..] + v) == CollapseSpaces(u[1..]) + CollapseSpaces(v)
    ensures CollapseSpaces(u + v) == CollapseSpaces(u) + CollapseSpaces(v)
  {
    CollapseWordAppend(u, v);
    CollapseWordStep(u);
    PrefixAppend(u[0], CollapseSpaces(u[1..]), CollapseSpaces(v), CollapseSpaces(u + v), CollapseSpaces(u));
  }

  /** Putting one character in front commutes with appending. */
  lemma PrefixAppend(c: char, a: string, b: string, x: string, y: string)
    requires x == [c] + (a + b) && y == [c] + a
    ensures x == y + b
  {
  }

  /** One step of `CollapseSplit` when `u` is one run of white space and `v` does not go on with it. */
  lemma CollapseSplitRun(u: string, v: string)
    requires u != [] && forall i :: 0 <= i < |u| ==> IsSpace(u[i])
    requires v == [] || !IsSpace(v[0])
    ensures CollapseSpaces(u + v) == CollapseSpaces(u) + CollapseSpaces(v)
  {
    CollapseRunAppend(u, v);
    CollapseRun(u);
  }

  /** A run of white space in front of text that does not start with white space becomes one `-`. */
  lemma CollapseRunAppend(u: string, v: string)
    requires u != [] && forall i :: 0 <= i < |u| ==> IsSpace(u[i])
    requires v == [] || !IsSpace(v[0])
    ensures CollapseSpaces(u + v) == ['-'] + CollapseSpaces(v)
  {
    assert DropSpaces(u) == [];
    DropSpacesAcrossAll(u, v);
    assert (u + v)[0] == u[0];
    CollapseRunStep(u + v);
  }

  /** One step of `CollapseSplit` when `u` starts with white space that ends inside `u`. */
  lemma CollapseSplitDrop(u: string, v: string)
    requires u != [] && IsSpace(u[0]) && DropSpaces(u) != []
    requires CollapseSpaces(DropSpaces(u) + v) == CollapseSpaces(DropSpaces(u)) + CollapseSpaces(v)
    ensures CollapseSpaces(u + v) == CollapseSpaces(u) + CollapseSpaces(v)
  {
    DropSpacesWithin(u, v);
    assert (u + v)[0] == u[0];
    CollapseRunStep(u + v);
    CollapseRunStep(u);
    PrefixAppend('-', CollapseSpaces(DropSpaces(u)), CollapseSpaces(v), CollapseSpaces(u + v), CollapseSpaces(u));
  }

  /**
   * Collapsing works piece by piece wherever the cut does not split a run of
   * white space; with the two lemmas above this fixes the result: each maximal
   * run becomes exactly one `-` and every other character stays, in order.
   */
  lemma {:induction false} CollapseSplit(u: string, v: string)
    requires u == [] || v == [] || !IsSpace(u[|u| - 1]) || !IsSpace(v[0])
    ensures CollapseSpaces(u + v) == CollapseSpaces(u) + CollapseSpaces(v)
    decreases |u|
  {
    if u == [] {
      assert u + v == v;
    } else if !IsSpace(u[0]) {
      CollapseSplit(u[1..], v);
      CollapseSplitWord(u, v);
    } else if DropSpaces(u) == [] {
      assert IsSpace(u[|u| - 1]);
      CollapseSplitRun(u, v);
    } else {
      var d := DropSpaces(u);
      assert d[|d| - 1] == u[|u| - 1];
      CollapseSplit(d, v);
      CollapseSplitDrop(u, v);
    }
  }

  /** `name.toLowerCase().replace(/\s+/g, '-')`. */
  function Slug(name: string): (r: string)
    ensures forall i :: 0 <= i < |r| ==> !IsSpace(r[i]) && !IsUpper(r[i])
    ensures '$' in r <==> '$' in name
  {
    var lower := Lower(name);
    assert '$' in lower <==> '$' in name by {
      if '$' in name {
        var i :| 0 <= i < |name| && name[i] == '$';
        assert lower[i] == '$';
      }
    }
    assert forall c :: c in lower ==> !IsUpper(c);
    CollapseSpacesKeeps(lower);
    CollapseSpaces(lower)
  }

  /** The position of the last `.` in `s`, if any. */
  function LastDot(s: string): (r: Option<nat>)
    ensures r.Some? ==> r.value < |s| && s[r.value] == '.'
    ensures r.Some? ==> forall i :: r.value < i < |s| ==> s[i] != '.'
    ensures r.None? ==> forall i :: 0 <= i < |s| ==> s[i] != '.'
  {
    if s == [] then None
    else if s[|s| - 1] == '.' then Some(|s| - 1)
    else LastDot(s[..|s| - 1])
  }

  /** `/(\.[^.]+)$/` matches at `p`: a `.` followed by one or more characters that are not `.`, up to the end. */
  ghost predicate ExtensionAt(s: string, p: nat) {
    p + 1 < |s| && s[p] == '.' && forall i :: p < i < |s| ==> s[i] != '.'
  }

  /** Where the pattern matches: the last `.`, provided something follows it; the match is unique. */
  function ExtensionStart(s: string): (r: Option<nat>)
    ensures r.Some? ==> ExtensionAt(s, r.value)
    ensures forall p: nat :: ExtensionAt(s, p) ==> r == Some(p)
  {
    var d := LastDot(s);
    assert forall p: nat :: ExtensionAt(s, p) ==> d == Some(p) by {
      forall p: nat | ExtensionAt(s, p)
        ensures d == Some(p)
      {
        assert s[p] == '.';
        assert d.Some? && p <= d.value;
        assert s[d.value] == '.';
      }
    }
    match d
    case Some(p) => if p + 1 < |s| then Some(p) else None
    case None => None
  }

  /**
   * The replacement template expanded as `String.prototype.replace` does for a
   * pattern with one capture group: `$$` is `$`, `$&` the match, `` $` `` the text
   * before it, `$'` the text after it, `$1` and `$01` the group; any other `$`
   * stands for itself.
   */
  function Expand(template: string, matched: string, before: string, after: string, group: string): (r: string)
    ensures '$' !in template ==> r == template
    decreases |template|
  {
    if template == [] then []
    else if template[0] == '$' && |template| >= 2 && template[1] == '$' then
      "$" + Expand(template[2..], matched, before, after, group)
    else if template[0] == '$' && |template| >= 2 && template[1] == '&' then
      matched + Expand(template[2..], matched, before, after, group)
    else if template[0] == '$' && |template| >= 2 && template[1] == '`' then
      before + Expand(template[2..], matched, before, after, group)
    else if template[0] == '$' && |template| >= 2 && template[1] == '\'' then
      after + Expand(template[2..], matched, before, after, group)
    else if template[0] == '$' && |template| >= 3 && template[1] == '0' && template[2] == '1' then
      group + Expand(template[3..], matched, before, after, group)
    else if template[0] == '$' && |template| >= 2 && template[1] == '1' then
      group + Expand(template[2..], matched, before, after, group)
    else
      [template[0]] + Expand(template[1..], matched, before, after, group)
  }

  /** A template that starts with a character other than `$` copies that character. */
  lemma ExpandStep(t: string, matched: string, before: string, after: string, group: string)
    requires t != [] && t[0] != '$'
    ensures Expand(t, matched, before, after, group) == [t[0]] + Expand(t[1..], matched, before, after, group)
  {
  }

  /** Text without `$` in a template stands for itself. */
  lemma {:induction false} ExpandLiteral(t: string, rest: string, matched: string, before: string, after: string, group: string)
    requires '$' !in t
    ensures Expand(t + rest, matched, before, after, group) == t + Expand(rest, matched, before, after, group)
  {
    if t != [] {
      var tr := t + rest;
      assert tr[0] == t[0] && t[0] != '$';
      assert tr[1..] == t[1..] + rest;
      ExpandLiteral(t[1..], rest, matched, before, after, group);
      ExpandStep(tr, matched, before, after, group);
      assert t == [t[0]] + t[1..];
      PrefixAppend(t[0], t[1..], Expand(rest, matched, before, after, group), [t[0]] + Expand(tr[1..], matched, before, after, group), t);
    } else {
      assert t + rest == rest;
    }
  }

  /**
   * The name of the downloaded file, as the source computes it: a name without
   * a final extension is kept; otherwise the text before the match is kept and
   * the match replaced by the expanded template.
   */
  function NewFileName(fileName: string, paletteName: string): (r: string)
    ensures (forall p: nat :: !ExtensionAt(fileName, p)) ==> r == fileName
    ensures forall p: nat :: ExtensionAt(fileName, p) ==>
      r == fileName[..p] + Expand("-" + Slug(paletteName) + "$1", fileName[p..], fileName[..p], "", fileName[p..])
  {
    match ExtensionStart(fileName)
    case None => fileName
    case Some(p) =>
      fileName[..p] + Expand("-" + Slug(paletteName) + "$1", fileName[p..], fileName[..p], "", fileName[p..])
  }

  /**
   * The name the expression is evidently meant to give: a name without a final
   * extension is kept; otherwise `-slug` goes in right before the extension.
   */
  function RenameForPalette(fileName: string, paletteName: string): (r: string)
    ensures (forall p: nat :: !ExtensionAt(fileName, p)) ==> r == fileName
    ensures forall p: nat :: ExtensionAt(fileName, p) ==> r == fileName[..p] + "-" + Slug(paletteName) + fileName[p..]
  {
    match ExtensionStart(fileName)
    case None => fileName
    case Some(p) => fileName[..p] + "-" + Slug(paletteName) + fileName[p..]
  }

  /** `$1` alone stands for the group. */
  lemma ExpandGroup(matched: string, before: string, after: string, group: string)
    ensures Expand("$1", matched, before, after, group) == group
  {
    assert "$1"[2..] == [];
  }

  /** A template of literal text followed by `$1` expands to the text followed by the group. */
  lemma LiteralThenGroup(t: string, matched: string, before: string, group: string)
    requires '$' !in t
    ensures Expand(t + "$1", matched, before, "", group) == t + group
  {
    ExpandLiteral(t, "$1", matched, before, "", group);
    ExpandGroup(matched, before, "", group);
  }

  /** With a slug free of `$`, the template puts `-slug` in front of the extension. */
  lemma TemplateInsertsSlug(fileName: string, slug: string, p: nat)
    requires p <= |fileName|
    requires '$' !in slug
    ensures Expand("-" + slug + "$1", fileName[p..], fileName[..p], "", fileName[p..]) == "-" + slug + fileName[p..]
  {
    assert '$' !in "-" + slug;
    LiteralThenGroup("-" + slug, fileName[p..], fileName[..p], fileName[p..]);
  }

  /** For a palette name without `$`, the source gives the intended name. */
  lemma NewFileNameWithoutDollar(fileName: string, paletteName: string)
    requires '$' !in paletteName
    ensures NewFileName(fileName, paletteName) == RenameForPalette(fileName, paletteName)
  {
    var e := ExtensionStart(fileName);
    if e.Some? {
      assert ExtensionAt(fileName, e.value);
      TemplateInsertsSlug(fileName, Slug(paletteName), e.value);
    } else {
      assert forall p: nat :: !ExtensionAt(fileName, p);
    }
  }

  // The text is a parameter fixed by `requires`, so the solver does not unfold the string literal at every use.
  lemma ExtensionOfSample(f: string)
    requires f == "a.css"
    ensures ExtensionStart(f) == Some(1) && f[..1] == "a" && f[1..] == ".css"
  {
    assert f[..2][1] == '.';
    assert LastDot(f[..2]) == Some(1);
    assert f[..3][..2] == f[..2] && f[..3][2] == 'c';
    assert LastDot(f[..3]) == Some(1);
    assert f[..4][..3] == f[..3] && f[..4][3] == 's';
    assert LastDot(f[..4]) == Some(1);
    assert f[..5][..4] == f[..4] && f[4] == 's' && f[..5] == f;
  }

  // The text is a parameter fixed by `requires`, so the solver does not unfold the string literal at every use.
  lemma SlugOfSample(name: string)
    requires name == "X$"
    ensures Slug(name) == "x$"
  {
    assert Lower(name) == "x$";
    assert CollapseSpaces("x$") == "x$";
  }

  // The text is a parameter fixed by `requires`, so the solver does not unfold the string literal at every use.
  lemma ExpandSample(t: string)
    requires t == "-x$$1"
    ensures Expand(t, ".css", "a", "", ".css") == "-x$1"
  {
    var m, b, a, g := ".css", "a", "", ".css";
    assert t[4..] == "1" && t[4..][1..] == [];
    assert Expand(t[4..], m, b, a, g) == "1";
    assert t[2..][2..] == t[4..] && t[2..][0] == '$' && t[2..][1] == '$';
    assert Expand(t[2..], m, b, a, g) == "$1";
    assert t[1..][1..] == t[2..] && t[1..][0] == 'x';
    assert Expand(t[1..], m, b, a, g) == "x$1";
  }

  // The text is a parameter fixed by `requires`, so the solver does not unfold the string literal at every use.
  lemma DollarSample(f: string, name: string)
    requires f == "a.css" && name == "X$"
    ensures NewFileName(f, name) == "a-x$1"
    ensures RenameForPalette(f, name) == "a-x$.css"
  {
    ExtensionOfSample(f);
    SlugOfSample(name);
    var t := "-" + Slug(name) + "$1";
    assert t == "-x$$1";
    ExpandSample(t);
    assert f[..1] + "-x$1" == "a-x$1";
    assert f[..1] + "-" + "x$" + f[1..] == "a-x$.css";
  }

  /** A palette name ending in `$` makes `$$1` of the template: the extension is lost and `$1` written instead. */
  lemma DollarInNameLosesExtension()
    ensures NewFileName("a.css", "X$") == "a-x$1"
    ensures RenameForPalette("a.css", "X$") == "a-x$.css"
  {
    DollarSample("a.css", "X$");
  }
}
