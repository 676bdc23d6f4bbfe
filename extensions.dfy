/**
 * The extension filter of `load-symbols`: the default extensions, the
 * `--ext` parser (`parse_extensions`) and the suffix test `name.endswith(exts)`.
 *
 * Python returns the set as a tuple in an unspecified order; only membership
 * matters to `str.endswith(tuple)`, so the model keeps a `set<string>`.
 */
module Extensions {
  import opened Text

  /** The extensions always accepted. */
  const DefaultExts: set<string> := {".debug", ".so", ".sym"}

  /** `e.startswith(".")`. */
  predicate IsDotted(e: string) {
    |e| > 0 && e[0] == '.'
  }

  /** An extension as the parser stores it: given a leading `.` when it has none. */
  function Dotted(ext: string): (r: string)
    ensures IsDotted(r)
  {
    if IsDotted(ext) then ext else ['.'] + ext
  }

  /** What one comma-separated piece contributes: nothing when blank, else its stripped text, dotted. */
  function PieceExt(piece: string): set<string> {
    var ext := Strip(piece);
    if ext == [] then {} else {Dotted(ext)}
  }

  /** The extensions contributed by a list of pieces. */
  function UserExts(pieces: seq<string>): set<string>
    decreases |pieces|
  {
    if pieces == [] then {}
    else UserExts(pieces[..|pieces| - 1]) + PieceExt(pieces[|pieces| - 1])
  }

  /** What `parse_extensions(s)` returns, as a set. */
  function ExtensionSet(s: string): set<string> {
    DefaultExts + UserExts(Split(s, ','))
  }

  /** `name.endswith(exts)`: some extension is a suffix of the name; case matters. */
  predicate EndsWithAny(name: string, exts: set<string>) {
    exists e :: e in exts && EndsWith(name, e)
  }

  /**
   * `parse_extensions`: starts from a copy of the defaults and adds each
   * stripped, non-empty piece of `s`, dot-prefixed when it lacks the dot.
   */
  method ParseExtensions(s: string) returns (exts: set<string>)
    ensures exts == ExtensionSet(s)
    ensures DefaultExts <= exts
    ensures forall e :: e in exts ==> IsDotted(e)
  {
    exts := DefaultExts;
    var pieces := Split(s, ',');
    var i := 0;
    while i < |pieces|
      invariant 0 <= i <= |pieces|
      invariant exts == DefaultExts + UserExts(pieces[..i])
    {
      var ext := Strip(pieces[i]);
      assert pieces[..i + 1][..i] == pieces[..i];
      if ext != [] {
        exts := exts + {Dotted(ext)};
      }
      i := i + 1;
    }
    assert pieces[..|pieces|] == pieces;
    ExtensionsDotted(s);
  }

  /** The extensions of a list of pieces are exactly those some piece of it contributes. */
  lemma {:induction false} UserExtsMember(pieces: seq<string>, e: string)
    ensures e in UserExts(pieces) <==> exists k :: 0 <= k < |pieces| && e in PieceExt(pieces[k])
    decreases |pieces|
  {
    if pieces != [] {
      var n := |pieces| - 1;
      var init := pieces[..n];
      var last := PieceExt(pieces[n]);
      assert UserExts(pieces) == UserExts(init) + last;
      UserExtsMember(init, e);
      if e in UserExts(init) {
        var k :| 0 <= k < |init| && e in PieceExt(init[k]);
        assert pieces[k] == init[k];
      }
      if exists k :: 0 <= k < |pieces| && e in PieceExt(pieces[k]) {
        var k :| 0 <= k < |pieces| && e in PieceExt(pieces[k]);
        if k < n {
          assert init[k] == pieces[k];
          assert e in UserExts(init);
        } else {
          assert e in last;
        }
      }
    }
  }

  /** The extensions of a concatenation of piece lists are those of the two lists together. */
  lemma {:induction false} UserExtsAppend(a: seq<string>, b: seq<string>)
    ensures UserExts(a + b) == UserExts(a) + UserExts(b)
    decreases |b|
  {
    if b == [] {
      assert a + b == a;
    } else {
      var n := |b| - 1;
      assert (a + b)[..|a + b| - 1] == a + b[..n];
      assert (a + b)[|a + b| - 1] == b[n];
      UserExtsAppend(a, b[..n]);
    }
  }

  /** Every extension `parse_extensions` returns starts with a dot. */
  lemma ExtensionsDotted(s: string)
    ensures forall e :: e in ExtensionSet(s) ==> IsDotted(e)
  {
    forall e | e in ExtensionSet(s) ensures IsDotted(e) {
      if e !in DefaultExts {
        UserExtsMember(Split(s, ','), e);
      }
    }
  }

  /**
   * The result of `parse_extensions(s)` holds the defaults and, for each piece
   * of `s` between commas that is not blank, its stripped and dotted form,
   * and nothing else.
   */
  lemma ExtensionSetMember(s: string, e: string)
    ensures e in ExtensionSet(s) <==>
      e in DefaultExts ||
      exists p :: p in Split(s, ',') && Strip(p) != [] && Dotted(Strip(p)) == e
  {
    var pieces := Split(s, ',');
    UserExtsMember(pieces, e);
    if exists p :: p in pieces && Strip(p) != [] && Dotted(Strip(p)) == e {
      var p :| p in pieces && Strip(p) != [] && Dotted(Strip(p)) == e;
      var k :| 0 <= k < |pieces| && pieces[k] == p;
      assert e in PieceExt(pieces[k]);
    }
  }

  /** A blank `--ext` (only whitespace, or nothing) gives exactly the defaults. */
  lemma {:induction false} BlankGivesDefaults(s: string)
    requires AllSpace(s)
    ensures ExtensionSet(s) == DefaultExts
  {
    assert ',' !in s by {
      forall k | 0 <= k < |s| ensures s[k] != ',' {
        assert IsSpace(s[k]);
      }
    }
    SplitWithoutSep(s, ',');
    StripSpec(s);
    assert UserExts([s]) == UserExts([]);
  }

  /**
   * Parsing `a,b` gives the union of parsing `a` and parsing `b`: pieces are
   * handled independently, so their order and repetitions do not matter.
   */
  lemma ExtensionSetConcat(a: string, b: string)
    ensures ExtensionSet(a + [','] + b) == ExtensionSet(a) + ExtensionSet(b)
  {
    SplitAt(a, b, ',');
    UserExtsAppend(Split(a, ','), Split(b, ','));
  }

  /** Blank pieces, such as the one after a trailing comma, add nothing. */
  lemma BlankPieceIgnored(s: string, blank: string)
    requires AllSpace(blank)
    ensures ExtensionSet(s + [','] + blank) == ExtensionSet(s)
  {
    ExtensionSetConcat(s, blank);
    BlankGivesDefaults(blank);
  }

  /** A single piece between commas: parsing it adds its stripped, dotted text unless it is blank. */
  lemma SinglePiece(piece: string)
    requires ',' !in piece
    ensures ExtensionSet(piece) == DefaultExts + PieceExt(piece)
  {
    SplitWithoutSep(piece, ',');
    assert [piece][..0] == [];
  }

  /**
   * With no `--ext`, a name is a symbol file exactly when it ends with
   * `.debug`, `.so` or `.sym`, letter for letter.
   */
  lemma DefaultFilter(name: string)
    ensures EndsWithAny(name, ExtensionSet("")) <==>
      EndsWith(name, ".debug") || EndsWith(name, ".so") || EndsWith(name, ".sym")
  {
    BlankGivesDefaults("");
    if EndsWithAny(name, DefaultExts) {
      var e :| e in DefaultExts && EndsWith(name, e);
      assert e == ".debug" || e == ".so" || e == ".sym";
    }
    if EndsWith(name, ".debug") {
      assert ".debug" in DefaultExts;
    } else if EndsWith(name, ".so") {
      assert ".so" in DefaultExts;
    } else if EndsWith(name, ".sym") {
      assert ".sym" in DefaultExts;
    }
  }

  /** The suffix test is case-sensitive: `libc.SO` is not matched by the default `.so`. */
  lemma CaseSensitiveMatch()
    ensures !EndsWithAny("libc.SO", ExtensionSet(""))
    ensures EndsWithAny("libc.so", ExtensionSet(""))
  {
    DefaultFilter("libc.SO");
    DefaultFilter("libc.so");
  }
}
