/** The names MIDL gives to WinRT types in generated C headers: a primitive
    keeps its MIDL name, a parameterized interface becomes "__F" with its
    arity and arguments, and a declared type joins its namespace components
    and name with "_C" (or "__C" inside a parameter list). */
module MidlMangling {
  import opened Wrappers

  const MIDL_INTERFACE_ID_PREFIX: string := "IID_"
  const MIDL_VIRTUAL_TABLE_SUFFIX: string := "Vtbl"

  const PARAMETERIZED_PREFIX: string := "__F"
  const DECLARED_PREFIX: string := "__x_ABI_C"
  const ESCAPED_UNDERSCORE: string := "__z"

  /** A generic type's name without its "`N" suffix, and its arity. */
  datatype GenericTypeName = GenericTypeName(nameWithoutAritySuffix: string, arity: nat)

  /** A WinRT type name. A primitive carries its MIDL name, which is not
      derived here. */
  datatype WinRTTypeName =
    | Primitive(midlName: string)
    | Parameterized(genericType: GenericTypeName, args: seq<WinRTTypeName>)
    | Declared(namespace: Option<string>, name: string)

  // Decimal rendering of the arity.

  function Digit(d: nat): (c: char)
    requires d < 10
    ensures '0' <= c <= '9'
  {
    (('0' as int) + d) as char
  }

  /** `String(arity)`: the decimal digits of `n`, most significant first,
      with no leading zero. */
  function DecimalString(n: nat): (r: string)
    ensures |r| > 0 && forall i :: 0 <= i < |r| ==> '0' <= r[i] <= '9'
    ensures r[0] == '0' ==> n == 0
    decreases n
  {
    if n < 10 then [Digit(n)] else DecimalString(n / 10) + [Digit(n % 10)]
  }

  /** The value of a string of decimal digits. */
  function ParseDecimal(s: string): nat
    requires forall i :: 0 <= i < |s| ==> '0' <= s[i] <= '9'
  {
    if |s| == 0 then 0 else ParseDecimal(s[..|s| - 1]) * 10 + (s[|s| - 1] as int - '0' as int)
  }

  /** The rendering reads back as the number it renders. */
  lemma {:induction false} DecimalStringRoundTrip(n: nat)
    ensures ParseDecimal(DecimalString(n)) == n
    decreases n
  {
    var r := DecimalString(n);
    if n >= 10 {
      DecimalStringRoundTrip(n / 10);
      assert r[..|r| - 1] == DecimalString(n / 10);
    }
  }

  // Escaping of underscores within a component.

  /** `replacing("_", with: "__z")`. */
  function Escape(s: string): (r: string)
    ensures |r| >= |s|
  {
    if |s| == 0 then "" else (if s[0] == '_' then ESCAPED_UNDERSCORE else [s[0]]) + Escape(s[1..])
  }

  /** An escaped text: every underscore is followed by another underscore or
      by 'z', so no separator "_C" or "__C" can begin inside it, and it does
      not end with an underscore. */
  ghost predicate IsEscaped(r: string) {
    forall i :: 0 <= i < |r| && r[i] == '_' ==> i + 1 < |r| && r[i + 1] in {'_', 'z'}
  }

  lemma {:induction false} EscapeIsEscaped(s: string)
    ensures IsEscaped(Escape(s))
  {
    if |s| > 0 {
      EscapeIsEscaped(s[1..]);
      var head := if s[0] == '_' then ESCAPED_UNDERSCORE else [s[0]];
      var r := Escape(s);
      assert r == head + Escape(s[1..]);
      forall i | 0 <= i < |r| && r[i] == '_'
        ensures i + 1 < |r| && r[i + 1] in {'_', 'z'}
      {
        if i >= |head| {
          assert r[i] == Escape(s[1..])[i - |head|];
        }
      }
    }
  }

  /** The inverse of escaping: "__z" reads as an underscore. */
  function Unescape(s: string): string
    decreases |s|
  {
    if |s| == 0 then ""
    else if |s| >= 3 && s[..3] == ESCAPED_UNDERSCORE then "_" + Unescape(s[3..])
    else [s[0]] + Unescape(s[1..])
  }

  /** Escaping loses nothing: the original component reads back. */
  lemma {:induction false} EscapeRoundTrip(s: string)
    ensures Unescape(Escape(s)) == s
  {
    if |s| > 0 {
      EscapeRoundTrip(s[1..]);
      var r := Escape(s);
      if s[0] == '_' {
        assert r[..3] == ESCAPED_UNDERSCORE && r[3..] == Escape(s[1..]);
      } else {
        assert r[0] == s[0] && r[1..] == Escape(s[1..]);
      }
      assert s == [s[0]] + s[1..];
    }
  }

  // Splitting the namespace on '.'.

  /** The length of the run of non-separator characters `s` starts with. */
  function PieceLength(s: string, sep: char): (n: nat)
    ensures n <= |s|
    ensures forall i :: 0 <= i < n ==> s[i] != sep
    ensures n < |s| ==> s[n] == sep
  {
    if |s| == 0 || s[0] == sep then 0 else 1 + PieceLength(s[1..], sep)
  }

  /** `split(separator:)` with its default of omitting empty pieces: the
      maximal runs of non-separator characters, in order. */
  function Split(s: string, sep: char): (r: seq<string>)
    ensures forall k :: 0 <= k < |r| ==> |r[k]| > 0 && sep !in r[k]
    decreases |s|
  {
    if |s| == 0 then []
    else if s[0] == sep then Split(s[1..], sep)
    else
      var n := PieceLength(s, sep);
      [s[..n]] + Split(s[n..], sep)
  }

  /** Non-empty pieces without the separator, joined by it. */
  function Join(pieces: seq<string>, sep: char): string {
    if |pieces| == 0 then ""
    else if |pieces| == 1 then pieces[0]
    else pieces[0] + ([sep] + Join(pieces[1..], sep))
  }

  lemma PieceLengthOfPiece(piece: string, rest: string, sep: char)
    requires sep !in piece
    requires |rest| == 0 || rest[0] == sep
    ensures PieceLength(piece + rest, sep) == |piece|
  {
    var s := piece + rest;
    assert forall i :: 0 <= i < |piece| ==> s[i] == piece[i];
    assert |piece| < |s| ==> s[|piece|] == sep;
  }

  /** Splitting undoes joining, for pieces `Split` could have produced. */
  lemma {:induction false} SplitJoinRoundTrip(pieces: seq<string>, sep: char)
    requires forall k :: 0 <= k < |pieces| ==> |pieces[k]| > 0 && sep !in pieces[k]
    ensures Split(Join(pieces, sep), sep) == pieces
  {
    if |pieces| == 1 {
      var s := pieces[0];
      PieceLengthOfPiece(s, "", sep);
      assert s + "" == s;
      assert s[|s|..] == [];
    } else if |pieces| > 1 {
      var s := Join(pieces, sep);
      var tail := [sep] + Join(pieces[1..], sep);
      assert s == pieces[0] + tail;
      PieceLengthOfPiece(pieces[0], tail, sep);
      assert s[0] == pieces[0][0];
      assert s[..|pieces[0]|] == pieces[0];
      assert s[|pieces[0]|..] == tail;
      assert tail[1..] == Join(pieces[1..], sep);
      SplitJoinRoundTrip(pieces[1..], sep);
      assert [pieces[0]] + pieces[1..] == pieces;
    }
  }

  // Declared types.

  /** The namespace components followed by the name. */
  function Components(namespace: Option<string>, name: string): (r: seq<string>)
    ensures |r| > 0 && r[|r| - 1] == name
  {
    (if namespace.Some? then Split(namespace.value, '.') else []) + [name]
  }

  /** What goes between two components. */
  function Separator(parameter: bool): string {
    if parameter then "__C" else "_C"
  }

  /** A declared type in top-level position carries the ABI prefix. */
  function DeclaredPrefix(parameter: bool): string {
    if parameter then "" else DECLARED_PREFIX
  }

  /** The escaped components, separated. */
  function JoinEscaped(components: seq<string>, sep: string): string {
    if |components| == 0 then ""
    else if |components| == 1 then Escape(components[0])
    else Escape(components[0]) + (sep + JoinEscaped(components[1..], sep))
  }

  /** The mangled name of `t`, in parameter position or at top level. */
  function Mangle(t: WinRTTypeName, parameter: bool): string {
    match t
    case Primitive(midlName) => midlName
    case Parameterized(g, args) =>
      PARAMETERIZED_PREFIX + g.nameWithoutAritySuffix + "_" + DecimalString(g.arity) + MangleArgs(args)
    case Declared(namespace, name) =>
      DeclaredPrefix(parameter) + JoinEscaped(Components(namespace, name), Separator(parameter))
  }

  /** Each argument, in order, after an underscore, in parameter position. */
  function MangleArgs(args: seq<WinRTTypeName>): string {
    if |args| == 0 then "" else "_" + Mangle(args[0], true) + MangleArgs(args[1..])
  }

  /** Reads the components back from the text after a declared type's
      prefix: "__z" is an underscore, the separator ends a component. */
  function DecodeComponents(s: string, sep: string, current: string): (r: seq<string>)
    requires |sep| > 0
    ensures |r| > 0
    decreases |s|
  {
    if |s| == 0 then [current]
    else if |s| >= 3 && s[..3] == ESCAPED_UNDERSCORE then DecodeComponents(s[3..], sep, current + "_")
    else if |s| >= |sep| && s[..|sep|] == sep then [current] + DecodeComponents(s[|sep|..], sep, "")
    else DecodeComponents(s[1..], sep, current + [s[0]])
  }

  /** The two separators. */
  predicate IsSeparator(sep: string) {
    sep == "_C" || sep == "__C"
  }

  lemma DecodeUnderscore(after: string, sep: string, current: string)
    requires IsSeparator(sep)
    ensures DecodeComponents(ESCAPED_UNDERSCORE + after, sep, current) == DecodeComponents(after, sep, current + "_")
  {
    var s := ESCAPED_UNDERSCORE + after;
    assert s[..3] == ESCAPED_UNDERSCORE && s[3..] == after;
  }

  lemma DecodeCharacter(c: char, after: string, sep: string, current: string)
    requires IsSeparator(sep) && c != '_'
    ensures DecodeComponents([c] + after, sep, current) == DecodeComponents(after, sep, current + [c])
  {
    var s := [c] + after;
    assert s[0] == c && s[1..] == after;
  }

  lemma {:induction false} DecodeEscaped(c: string, rest: string, sep: string, current: string)
    requires IsSeparator(sep)
    ensures DecodeComponents(Escape(c) + rest, sep, current) == DecodeComponents(rest, sep, current + c)
  {
    if |c| > 0 {
      var after := Escape(c[1..]) + rest;
      assert Escape(c) + rest == (if c[0] == '_' then ESCAPED_UNDERSCORE else [c[0]]) + after;
      if c[0] == '_' {
        DecodeUnderscore(after, sep, current);
      } else {
        DecodeCharacter(c[0], after, sep, current);
      }
      DecodeEscaped(c[1..], rest, sep, current + [c[0]]);
      assert current + [c[0]] + c[1..] == current + c;
    } else {
      assert Escape(c) + rest == rest && current + c == current;
    }
  }

  lemma DecodeSeparator(rest: string, sep: string, current: string)
    requires IsSeparator(sep)
    ensures DecodeComponents(sep + rest, sep, current) == [current] + DecodeComponents(rest, sep, "")
  {
    var s := sep + rest;
    assert s[..|sep|] == sep && s[|sep|..] == rest;
    assert s[1] == sep[1];
    if |sep| == 3 {
      assert s[2] == 'C';
    }
  }

  /** The escaped, separated components decode to themselves. */
  lemma {:induction false} JoinEscapedDecodes(components: seq<string>, sep: string)
    requires IsSeparator(sep) && |components| > 0
    ensures DecodeComponents(JoinEscaped(components, sep), sep, "") == components
  {
    var head := components[0];
    if |components| == 1 {
      DecodeEscaped(head, "", sep, "");
      assert Escape(head) + "" == Escape(head);
      assert "" + head == head;
    } else {
      var tail := JoinEscaped(components[1..], sep);
      DecodeEscaped(head, sep + tail, sep, "");
      assert "" + head == head;
      DecodeSeparator(tail, sep, head);
      JoinEscapedDecodes(components[1..], sep);
      assert [head] + components[1..] == components;
    }
  }

  /** A declared type's mangling starts with its prefix, and the rest reads
      back as its components: the namespace split on '.', then the name.
      Distinct component lists therefore mangle differently. */
  lemma DeclaredManglingDecodes(namespace: Option<string>, name: string, parameter: bool)
    ensures DeclaredPrefix(parameter) <= Mangle(Declared(namespace, name), parameter)
    ensures DecodeComponents(Mangle(Declared(namespace, name), parameter)[|DeclaredPrefix(parameter)|..],
                             Separator(parameter), "") == Components(namespace, name)
  {
    var m := Mangle(Declared(namespace, name), parameter);
    var body := JoinEscaped(Components(namespace, name), Separator(parameter));
    assert m == DeclaredPrefix(parameter) + body;
    assert m[|DeclaredPrefix(parameter)|..] == body;
    JoinEscapedDecodes(Components(namespace, name), Separator(parameter));
  }

  /** Only a declared type's mangling depends on the position: primitives
      and parameterized types mangle the same in both. */
  lemma OnlyDeclaredDependsOnPosition(t: WinRTTypeName)
    requires !t.Declared?
    ensures Mangle(t, true) == Mangle(t, false)
  {
  }

  /** `midlMangling`: a primitive is its MIDL name; anything else is
      written in top-level position into an empty string. The shortcut
      agrees with the writer. */
  method MidlMangling(t: WinRTTypeName) returns (r: string)
    ensures r == Mangle(t, false)
    ensures t.Primitive? ==> r == t.midlName
    ensures t.Declared? ==> DECLARED_PREFIX <= r
    ensures t.Parameterized? ==> PARAMETERIZED_PREFIX <= r
  {
    if t.Primitive? {
      return t.midlName;
    }
    r := WriteMidlMangling(t, false, "");
  }

  /** `writeMidlMangling(parameter:to:)`: appends the mangled name of `t` to
      `output`. */
  method WriteMidlMangling(t: WinRTTypeName, parameter: bool, output: string) returns (out: string)
    ensures out == output + Mangle(t, parameter)
  {
    match t
    case Primitive(midlName) =>
      out := output + midlName;
    case Parameterized(g, args) =>
      out := output + PARAMETERIZED_PREFIX + g.nameWithoutAritySuffix + "_" + DecimalString(g.arity);
      out := WriteArguments(args, out);
    case Declared(namespace, name) =>
      out := WriteDeclared(namespace, name, parameter, output);
  }

  /** The argument loop: each argument after an underscore, in parameter
      position. */
  method WriteArguments(args: seq<WinRTTypeName>, output: string) returns (out: string)
    ensures out == output + MangleArgs(args)
  {
    out := output;
    var i := 0;
    while i < |args|
      invariant 0 <= i <= |args|
      invariant out + MangleArgs(args[i..]) == output + MangleArgs(args)
    {
      assert args[i..][1..] == args[i + 1..];
      out := WriteMidlMangling(args[i], true, out + "_");
      i := i + 1;
    }
    assert args[i..] == [];
  }

  /** A declared type: the prefix in top-level position, then its
      components. */
  method WriteDeclared(namespace: Option<string>, name: string, parameter: bool, output: string) returns (out: string)
    ensures out == output + Mangle(Declared(namespace, name), parameter)
  {
    out := WriteComponents(Components(namespace, name), Separator(parameter), output + DeclaredPrefix(parameter));
  }

  /** The component loop: the separator before every component but the
      first, tracked by a first-component flag, and each component
      escaped. */
  method WriteComponents(components: seq<string>, sep: string, output: string) returns (out: string)
    ensures out == output + JoinEscaped(components, sep)
  {
    out := output;
    var firstComponent := true;
    var i := 0;
    while i < |components|
      invariant 0 <= i <= |components|
      invariant firstComponent <==> i == 0
      invariant out == output + JoinEscaped(components[..i], sep)
    {
      var separator := if firstComponent then "" else sep;
      JoinEscapedStep(components, i, sep);
      out := out + separator;
      out := out + Escape(components[i]);
      firstComponent := false;
      i := i + 1;
    }
    assert components[..i] == components;
  }

  lemma JoinEscapedStep(components: seq<string>, i: nat, sep: string)
    requires i < |components|
    ensures JoinEscaped(components[..i + 1], sep)
            == JoinEscaped(components[..i], sep) + (if i == 0 then "" else sep) + Escape(components[i])
  {
    if i == 0 {
      assert components[..1] == [components[0]];
    } else {
      JoinEscapedSnoc(components[..i], components[i], sep);
      assert components[..i] + [components[i]] == components[..i + 1];
    }
  }

  lemma {:induction false} JoinEscapedSnoc(components: seq<string>, c: string, sep: string)
    requires |components| > 0
    ensures JoinEscaped(components + [c], sep) == JoinEscaped(components, sep) + sep + Escape(c)
  {
    var all := components + [c];
    assert all[0] == components[0];
    if |components| > 1 {
      assert all[1..] == components[1..] + [c];
      JoinEscapedSnoc(components[1..], c, sep);
    } else {
      assert all[1..] == [c];
    }
  }
}
