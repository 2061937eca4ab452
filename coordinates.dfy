/**
 * The command-line coordinate parser of `src/main.rs`: a string such as
 * `"(1.0,2.5,-3)"` or `"1.0,2.5,-3"` becomes three `f32` values. The
 * parser drops every parenthesis, splits on `,` into at most three pieces
 * and hands each piece, untrimmed, to `str::parse::<f32>`, which is a
 * parameter here (`parse` gives `None` where Rust's parse fails).
 */
module CoordinateParsing {
  import opened Wrappers
  import opened Vectors
  import opened Bytes

  predicate IsParen(c: char) {
    c == '(' || c == ')'
  }

  /** True when `s` holds no parenthesis. */
  predicate NoParens(s: string) {
    forall i | 0 <= i < |s| :: !IsParen(s[i])
  }

  /** `str::replace(['(', ')'], "")`: the string without its parentheses. */
  function RemoveParens(s: string): (r: string)
  {
    if s == [] then []
    else (if IsParen(s[0]) then [] else [s[0]]) + RemoveParens(s[1..])
  }

  /** No parenthesis is left, and a string without parentheses is returned as it is. */
  lemma {:induction false} RemoveParensSpec(s: string)
    ensures NoParens(RemoveParens(s))
    ensures NoParens(s) ==> RemoveParens(s) == s
  {
    if s != [] {
      RemoveParensSpec(s[1..]);
      var r := RemoveParens(s);
      var t := RemoveParens(s[1..]);
      var h := if IsParen(s[0]) then [] else [s[0]];
      assert r == h + t;
      assert forall i | 0 <= i < |r| :: r[i] == if i < |h| then h[i] else t[i - |h|];
      if NoParens(s) {
        assert forall i | 0 <= i < |s| - 1 :: s[1..][i] == s[i + 1];
        assert NoParens(s[1..]);
        assert r == [s[0]] + s[1..];
      }
    }
  }

  /** Removing parentheses a second time changes nothing. */
  lemma RemoveParensIdempotent(s: string)
    ensures RemoveParens(RemoveParens(s)) == RemoveParens(s)
  {
    RemoveParensSpec(s);
    RemoveParensSpec(RemoveParens(s));
  }

  /** Dropping parentheses keeps every other character, in order. */
  lemma {:induction false} RemoveParensConcat(a: string, b: string)
    ensures RemoveParens(a + b) == RemoveParens(a) + RemoveParens(b)
  {
    if a != [] {
      assert (a + b)[1..] == a[1..] + b;
      RemoveParensConcat(a[1..], b);
    } else {
      assert a + b == b;
    }
  }

  /** True when no character of `s` is `c`. */
  predicate Lacks(s: string, c: char) {
    forall k | 0 <= k < |s| :: s[k] != c
  }

  /** The number of occurrences of `c` in `s`. */
  function Count(s: string, c: char): nat
  {
    if s == [] then 0 else (if s[0] == c then 1 else 0) + Count(s[1..], c)
  }

  lemma {:induction false} CountConcat(a: string, b: string, c: char)
    ensures Count(a + b, c) == Count(a, c) + Count(b, c)
  {
    if a != [] {
      assert (a + b)[1..] == a[1..] + b;
      CountConcat(a[1..], b, c);
    } else {
      assert a + b == b;
    }
  }

  lemma {:induction false} CountAbsent(s: string, c: char)
    requires Lacks(s, c)
    ensures Count(s, c) == 0
  {
    if s != [] {
      CountAbsent(s[1..], c);
    }
  }

  /** The index of the first `c` in `s`, if any. */
  function IndexOf(s: string, c: char): (r: Option<nat>)
    ensures r.None? ==> Lacks(s, c)
    ensures r.Some? ==> r.value < |s| && s[r.value] == c && forall k | 0 <= k < r.value :: s[k] != c
  {
    if s == [] then None
    else if s[0] == c then Some(0)
    else
      match IndexOf(s[1..], c)
      case None => None
      case Some(i) =>
        Some(i + 1)
  }

  /** The pieces joined together with `sep` between consecutive ones. */
  function Join(pieces: seq<string>, sep: char): string
  {
    if |pieces| == 0 then []
    else if |pieces| == 1 then pieces[0]
    else pieces[0] + [sep] + Join(pieces[1..], sep)
  }

  /**
   * `str::splitn(n, sep)` for `n >= 1`: at most `n` pieces separated by
   * `sep`; the last piece is everything after the `n - 1`-th separator and
   * may itself contain `sep`.
   */
  function SplitN(s: string, n: nat, sep: char): (pieces: seq<string>)
    requires n >= 1
    ensures 1 <= |pieces| <= n
    ensures forall i | 0 <= i < |pieces| - 1 :: Lacks(pieces[i], sep)
    ensures |pieces| < n ==> Lacks(pieces[|pieces| - 1], sep)
    decreases n
  {
    if n == 1 then [s]
    else
      match IndexOf(s, sep)
      case None => [s]
      case Some(i) =>
        [s[..i]] + SplitN(s[i + 1..], n - 1, sep)
  }

  lemma JoinCons(first: string, rest: seq<string>, sep: char)
    requires |rest| >= 1
    ensures Join([first] + rest, sep) == first + [sep] + Join(rest, sep)
  {
    assert ([first] + rest)[1..] == rest;
  }

  /** Joining the pieces with `sep` gives the string back. */
  lemma {:induction false} SplitNJoin(s: string, n: nat, sep: char)
    requires n >= 1
    ensures Join(SplitN(s, n, sep), sep) == s
    decreases n
  {
    if n > 1 && IndexOf(s, sep).Some? {
      var i := IndexOf(s, sep).value;
      var rest := SplitN(s[i + 1..], n - 1, sep);
      SplitNJoin(s[i + 1..], n - 1, sep);
      JoinCons(s[..i], rest, sep);
      assert s[..i] + [s[i]] + s[i + 1..] == s;
    }
  }

  /** Cutting at the first `sep` leaves one `sep` fewer after it. */
  lemma CountAfterFirst(s: string, sep: char, i: nat)
    requires i < |s| && s[i] == sep && forall k | 0 <= k < i :: s[k] != sep
    ensures Count(s, sep) == 1 + Count(s[i + 1..], sep)
  {
    var tail := s[i + 1..];
    assert s == s[..i] + ([sep] + tail);
    CountConcat(s[..i], [sep] + tail, sep);
    CountConcat([sep], tail, sep);
    CountAbsent(s[..i], sep);
    assert Count([sep], sep) == 1;
  }

  /** `splitn(n, sep)` yields all `n` pieces exactly when `s` holds at least `n - 1` separators. */
  lemma {:induction false} SplitNCount(s: string, n: nat, sep: char)
    requires n >= 1
    ensures |SplitN(s, n, sep)| == n <==> Count(s, sep) >= n - 1
    decreases n
  {
    if n > 1 {
      var idx := IndexOf(s, sep);
      if idx.None? {
        CountAbsent(s, sep);
      } else {
        var i := idx.value;
        SplitNCount(s[i + 1..], n - 1, sep);
        CountAfterFirst(s, sep, i);
      }
    }
  }

  /** The errors of the coordinate parser; each carries the text it quotes. */
  datatype CoordinateError =
    /** Fewer than three comma-separated pieces; carries the string without parentheses. */
    | WrongFormat(value: string)
    | InvalidX(piece: string)
    | InvalidY(piece: string)
    | InvalidZ(piece: string)

  /** The split-and-parse part of `parse_str_as_three_f32_points`, applied to the string without parentheses. */
  function ParseComponents(cleaned: string, parse: string -> Option<F32>): (r: Result<(F32, F32, F32), CoordinateError>)
  {
    var components := SplitN(cleaned, 3, ',');
    if |components| != 3 then Err(WrongFormat(cleaned))
    else
      match parse(components[0])
      case None => Err(InvalidX(components[0]))
      case Some(x) =>
        match parse(components[1])
        case None => Err(InvalidY(components[1]))
        case Some(y) =>
          match parse(components[2])
          case None => Err(InvalidZ(components[2]))
          case Some(z) => Ok((x, y, z))
  }

  /** `parse_str_as_three_f32_points`: drop the parentheses, then split and parse. */
  function ParseThreeF32(value: string, parse: string -> Option<F32>): (r: Result<(F32, F32, F32), CoordinateError>)
  {
    ParseComponents(RemoveParens(value), parse)
  }

  /** Parentheses anywhere in the input make no difference: "(x,y,z)" parses as "x,y,z". */
  lemma ParseIgnoresParens(value: string, parse: string -> Option<F32>)
    ensures ParseThreeF32(value, parse) == ParseThreeF32(RemoveParens(value), parse)
    ensures ParseThreeF32("(" + value + ")", parse) == ParseThreeF32(value, parse)
  {
    RemoveParensIdempotent(value);
    var wrapped := "(" + value + ")";
    assert RemoveParens(wrapped) == RemoveParens(value) by {
      RemoveParensConcat("(", value);
      RemoveParensConcat("(" + value, ")");
      assert RemoveParens("(") == [] by { assert "("[1..] == []; }
      assert RemoveParens(")") == [] by { assert ")"[1..] == []; }
    }
  }

  /** The input is rejected for its shape exactly when, without parentheses, it holds fewer than two commas. */
  lemma ParseWrongFormat(value: string, parse: string -> Option<F32>)
    ensures ParseThreeF32(value, parse).Err? && ParseThreeF32(value, parse).error.WrongFormat? <==>
              Count(RemoveParens(value), ',') < 2
    ensures Count(RemoveParens(value), ',') < 2 ==> ParseThreeF32(value, parse) == Err(WrongFormat(RemoveParens(value)))
  {
    SplitNCount(RemoveParens(value), 3, ',');
  }

  /** The first `sep` of `x + [sep] + y`, when `x` holds none, is the one after `x`. */
  lemma IndexOfAfter(x: string, y: string, sep: char)
    requires Lacks(x, sep)
    ensures IndexOf(x + [sep] + y, sep) == Some(|x|)
  {
    var s := x + [sep] + y;
    assert s[|x|] == sep;
    assert forall k | 0 <= k < |x| :: s[k] == x[k];
  }

  /** `splitn(3, ',')` of `a,b,c` with no comma in `a` or `b` gives `a`, `b`, `c`. */
  lemma SplitThree(a: string, b: string, c: string)
    requires Lacks(a, ',') && Lacks(b, ',')
    ensures SplitN(a + "," + b + "," + c, 3, ',') == [a, b, c]
  {
    var s := a + "," + b + "," + c;
    var rest := b + "," + c;
    assert s == a + [','] + rest;
    IndexOfAfter(a, rest, ',');
    assert s[|a| + 1..] == rest;
    assert rest == b + [','] + c;
    IndexOfAfter(b, c, ',');
    assert rest[|b| + 1..] == c;
    assert s[..|a|] == a;
    assert rest[..|b|] == b;
  }

  /**
   * On `a,b,c` with no comma in `a` or `b` (and no parentheses at all) the
   * pieces are `a`, `b` and `c` (which may hold commas); each goes to
   * `parse` as it is; the first piece that fails names the error; success
   * returns the three values in order.
   */
  lemma ParsePieces(a: string, b: string, c: string, parse: string -> Option<F32>)
    requires Lacks(a, ',') && Lacks(b, ',')
    requires NoParens(a + "," + b + "," + c)
    ensures var r := ParseThreeF32(a + "," + b + "," + c, parse);
      && (r.Ok? <==> parse(a).Some? && parse(b).Some? && parse(c).Some?)
      && (r.Ok? ==> r.value == (parse(a).value, parse(b).value, parse(c).value))
      && (parse(a).None? ==> r == Err(InvalidX(a)))
      && (parse(a).Some? && parse(b).None? ==> r == Err(InvalidY(b)))
      && (parse(a).Some? && parse(b).Some? && parse(c).None? ==> r == Err(InvalidZ(c)))
  {
    RemoveParensSpec(a + "," + b + "," + c);
    SplitThree(a, b, c);
  }

  /** `parse_str_as_point3`: the parsed triple as a point. */
  function ParseStrAsPoint3(value: string, parse: string -> Option<F32>): (r: Result<Point3<F32>, CoordinateError>)
    ensures r.Ok? <==> ParseThreeF32(value, parse).Ok?
    ensures r.Ok? ==> var (x, y, z) := ParseThreeF32(value, parse).value; r.value == Point3(x, y, z)
    ensures r.Err? ==> r.error == ParseThreeF32(value, parse).error
  {
    var (x, y, z) :- ParseThreeF32(value, parse);
    Ok(Point3(x, y, z))
  }

  /** `parse_str_as_vector3`: the parsed triple as a vector. */
  function ParseStrAsVector3(value: string, parse: string -> Option<F32>): (r: Result<Vector3<F32>, CoordinateError>)
    ensures r.Ok? <==> ParseThreeF32(value, parse).Ok?
    ensures r.Ok? ==> var (x, y, z) := ParseThreeF32(value, parse).value; r.value == Vector3(x, y, z)
    ensures r.Err? ==> r.error == ParseThreeF32(value, parse).error
  {
    var (x, y, z) :- ParseThreeF32(value, parse);
    Ok(Vector3(x, y, z))
  }
}
