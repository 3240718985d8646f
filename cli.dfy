/**
 * The argument parsers of the command-line tool (`ppcalc/src/cli.rs`): the
 * destination-selection keyword and the distribution specifications
 * `constant:VALUE`, `uniform:MIN:MAX` and `normal:MEAN:DEV`.
 *
 * Parsing a field as the value type `T` (`str::parse::<T>`) and as a 64-bit
 * float (`str::parse::<f64>`) are partial functions the model takes as
 * parameters; the float type is the type parameter `F`.
 */
module Cli {
  import opened Wrappers
  import Destination

  type DestinationSelectionType = Destination.DestinationSelectionType

  // ----- the destination-selection keyword -----

  /** The keyword the command line uses for each selection type. */
  function SelectionKeyword(t: DestinationSelectionType): string {
    match t
    case Normal => "normal"
    case Uniform => "uniform"
    case RoundRobin => "roundrobin"
  }

  /** `parse_destination_selection_type`. */
  function ParseDestinationSelectionType(s: string): (r: Result<DestinationSelectionType, string>)
    ensures r.Success? <==> s == "normal" || s == "uniform" || s == "roundrobin"
    ensures r.Success? ==> SelectionKeyword(r.value) == s
    ensures r.Failure? ==> r.error == "Invalid destination selection type \"" + s + "\"."
  {
    if s == "normal" then Success(Destination.Normal)
    else if s == "uniform" then Success(Destination.Uniform)
    else if s == "roundrobin" then Success(Destination.RoundRobin)
    else Failure("Invalid destination selection type \"" + s + "\".")
  }

  /** Every selection type is parsed back from its keyword. */
  lemma ParseSelectionKeyword(t: DestinationSelectionType)
    ensures ParseDestinationSelectionType(SelectionKeyword(t)) == Success(t)
  {
    match t
    case Normal =>
    case Uniform =>
      assert "uniform" != "normal" by { assert "uniform"[0] != "normal"[0]; }
    case RoundRobin =>
      assert "roundrobin" != "normal" by { assert "roundrobin"[0] != "normal"[0]; }
      assert "roundrobin" != "uniform" by { assert "roundrobin"[0] != "uniform"[0]; }
  }

  // ----- splitting on ':' -----

  /** The pieces joined again, with `sep` between neighbours. */
  function Join(parts: seq<string>, sep: char): string {
    if parts == [] then ""
    else if |parts| == 1 then parts[0]
    else parts[0] + [sep] + Join(parts[1..], sep)
  }

  /**
   * `str::split` on one character: the pieces between the separators. There
   * is always at least one piece, and joining them gives back the string.
   */
  function Split(s: string, sep: char): (r: seq<string>)
    ensures |r| >= 1
    ensures forall i :: 0 <= i < |r| ==> sep !in r[i]
    ensures Join(r, sep) == s
    decreases |s|
  {
    if s == [] then [""]
    else if s[0] == sep then
      var rest := Split(s[1..], sep);
      assert s == [sep] + s[1..];
      [""] + rest
    else
      var rest := Split(s[1..], sep);
      var r := [[s[0]] + rest[0]] + rest[1..];
      assert Join(r, sep) == [s[0]] + Join(rest, sep) by {
        if |rest| > 1 {
          assert r[1..] == rest[1..];
          assert ([s[0]] + rest[0]) + [sep] + Join(rest[1..], sep) == [s[0]] + (rest[0] + [sep] + Join(rest[1..], sep));
        }
      }
      assert s == [s[0]] + s[1..];
      r
  }

  lemma JoinTwo(a: string, b: string, sep: char)
    ensures Join([a, b], sep) == a + [sep] + b
  {
    assert [a, b][1..] == [b];
  }

  lemma JoinThree(a: string, b: string, c: string, sep: char)
    ensures Join([a, b, c], sep) == a + [sep] + b + [sep] + c
  {
    assert [a, b, c][1..] == [b, c];
    JoinTwo(b, c, sep);
  }

  /** A piece without separators stays whole. */
  lemma {:induction false} SplitWhole(w: string, sep: char)
    requires sep !in w
    ensures Split(w, sep) == [w]
    decreases |w|
  {
    if w != [] {
      SplitWhole(w[1..], sep);
      assert [w[0]] + w[1..] == w;
    }
  }

  /** A leading piece without separators is split off as the first piece. */
  lemma {:induction false} SplitFront(w: string, sep: char, t: string)
    requires sep !in w
    ensures Split(w + [sep] + t, sep) == [w] + Split(t, sep)
    decreases |w|
  {
    var s := w + [sep] + t;
    if w == [] {
      assert s == [sep] + t && s[1..] == t;
    } else {
      assert s[0] == w[0] && s[1..] == w[1..] + [sep] + t;
      SplitFront(w[1..], sep, t);
      assert [w[0]] + w[1..] == w;
    }
  }

  /** Splitting undoes joining pieces that hold no separator. */
  lemma {:induction false} SplitJoin(parts: seq<string>, sep: char)
    requires |parts| >= 1
    requires forall i :: 0 <= i < |parts| ==> sep !in parts[i]
    ensures Split(Join(parts, sep), sep) == parts
    decreases |parts|
  {
    if |parts| == 1 {
      SplitWhole(parts[0], sep);
    } else {
      SplitJoin(parts[1..], sep);
      SplitFront(parts[0], sep, Join(parts[1..], sep));
      assert [parts[0]] + parts[1..] == parts;
    }
  }

  // ----- distribution specifications -----

  /** A parsed distribution; `F` stands for the 64-bit float type. */
  datatype ParsedDistribution<T, F> =
    | Constant(value: T)
    | Uniform(min: T, max: T)
    | Normal(mean: F, dev: F)

  /** The one message every malformed distribution specification gets. */
  const DistributionError: string :=
    "Invalid distribution. Specify it using one of the following forms:\n    constant:VALUE\n    uniform:MIN:MAX\n    normal:mean:dev"

  /** `s` is `tag:field` with no further ':'. */
  predicate OneField(s: string, tag: string, field: string) {
    s == tag + ":" + field && ':' !in field
  }

  /** `s` is `tag:first:second` with no further ':'. */
  predicate TwoFields(s: string, tag: string, first: string, second: string) {
    s == tag + ":" + first + ":" + second && ':' !in first && ':' !in second
  }

  /**
   * `parse_distribution`: the tag and the number of ':'-separated fields
   * choose the kind; constant and uniform fields are parsed as `T`, normal
   * fields as floats whatever `T` is. Every failure has the same message.
   */
  function ParseDistribution<T, F>(s: string, parseT: string -> Option<T>, parseF: string -> Option<F>)
    : (r: Result<ParsedDistribution<T, F>, string>)
    ensures r.Failure? ==> r.error == DistributionError
    ensures r.Success? && r.value.Constant? ==>
      exists v :: OneField(s, "constant", v) && parseT(v) == Some(r.value.value)
    ensures r.Success? && r.value.Uniform? ==>
      exists a, b :: TwoFields(s, "uniform", a, b) && parseT(a) == Some(r.value.min) && parseT(b) == Some(r.value.max)
    ensures r.Success? && r.value.Normal? ==>
      exists a, b :: TwoFields(s, "normal", a, b) && parseF(a) == Some(r.value.mean) && parseF(b) == Some(r.value.dev)
  {
    var parts := Split(s, ':');
    if |parts| == 2 && parts[0] == "constant" then
      assert parts == [parts[0], parts[1]];
      JoinTwo(parts[0], parts[1], ':');
      assert OneField(s, "constant", parts[1]);
      match parseT(parts[1])
      case None => Failure(DistributionError)
      case Some(value) => Success(Constant(value))
    else if |parts| == 3 && parts[0] == "uniform" then
      assert parts == [parts[0], parts[1], parts[2]];
      JoinThree(parts[0], parts[1], parts[2], ':');
      assert TwoFields(s, "uniform", parts[1], parts[2]);
      match (parseT(parts[1]), parseT(parts[2]))
      case (Some(min), Some(max)) => Success(Uniform(min, max))
      case _ => Failure(DistributionError)
    else if |parts| == 3 && parts[0] == "normal" then
      assert parts == [parts[0], parts[1], parts[2]];
      JoinThree(parts[0], parts[1], parts[2], ':');
      assert TwoFields(s, "normal", parts[1], parts[2]);
      match (parseF(parts[1]), parseF(parts[2]))
      case (Some(mean), Some(dev)) => Success(Normal(mean, dev))
      case _ => Failure(DistributionError)
    else
      Failure(DistributionError)
  }

  /** `constant:V` is a constant distribution exactly when `V` parses. */
  lemma ParseConstant<T, F>(v: string, parseT: string -> Option<T>, parseF: string -> Option<F>)
    requires ':' !in v
    ensures ParseDistribution("constant:" + v, parseT, parseF) ==
      if parseT(v).Some? then Success(Constant(parseT(v).value)) else Failure(DistributionError)
  {
    SplitJoin(["constant", v], ':');
    JoinTwo("constant", v, ':');
    assert "constant:" + v == "constant" + [':'] + v;
    assert Split("constant:" + v, ':') == ["constant", v];
  }

  /** `uniform:A:B` is a uniform distribution exactly when both bounds parse. */
  lemma ParseUniform<T, F>(a: string, b: string, parseT: string -> Option<T>, parseF: string -> Option<F>)
    requires ':' !in a && ':' !in b
    ensures ParseDistribution("uniform:" + a + ":" + b, parseT, parseF) ==
      if parseT(a).Some? && parseT(b).Some? then Success(Uniform(parseT(a).value, parseT(b).value))
      else Failure(DistributionError)
  {
    SplitJoin(["uniform", a, b], ':');
    JoinThree("uniform", a, b, ':');
    assert "uniform:" + a + ":" + b == "uniform" + [':'] + a + [':'] + b;
    assert Split("uniform:" + a + ":" + b, ':') == ["uniform", a, b];
    assert "uniform" != "constant" by { assert "uniform"[0] != "constant"[0]; }
  }

  /** `normal:M:D` is a normal distribution exactly when both fields parse as floats. */
  lemma ParseNormal<T, F>(m: string, d: string, parseT: string -> Option<T>, parseF: string -> Option<F>)
    requires ':' !in m && ':' !in d
    ensures ParseDistribution("normal:" + m + ":" + d, parseT, parseF) ==
      if parseF(m).Some? && parseF(d).Some? then Success(Normal(parseF(m).value, parseF(d).value))
      else Failure(DistributionError)
  {
    SplitJoin(["normal", m, d], ':');
    JoinThree("normal", m, d, ':');
    assert "normal:" + m + ":" + d == "normal" + [':'] + m + [':'] + d;
    assert Split("normal:" + m + ":" + d, ':') == ["normal", m, d];
    assert "normal" != "constant" by { assert "normal"[0] != "constant"[0]; }
    assert "normal" != "uniform" by { assert "normal"[0] != "uniform"[0]; }
  }

  /** A tag other than the three, whatever follows it, is rejected. */
  lemma ParseUnknownTag<T, F>(tag: string, rest: string, parseT: string -> Option<T>, parseF: string -> Option<F>)
    requires ':' !in tag
    requires tag != "constant" && tag != "uniform" && tag != "normal"
    ensures ParseDistribution(tag + ":" + rest, parseT, parseF) == Failure(DistributionError)
  {
    SplitFront(tag, ':', rest);
    assert tag + ":" + rest == tag + [':'] + rest;
  }

  /** A distribution with a constant value (the code's `Constant<T>`). */
  datatype ConstantDistribution<T> = ConstantDistribution(value: T) {
    /** Drawing from a constant distribution ignores the random source. */
    function Sample(): T {
      value
    }
  }

  /** The `Constant` branch of `make_distr`. */
  function MakeConstant<T, F>(d: ParsedDistribution<T, F>): ConstantDistribution<T>
    requires d.Constant?
  {
    ConstantDistribution(d.value)
  }

  /** A `constant:V` specification always samples to the value `V` parses to. */
  lemma ConstantSpecSamples<T, F>(v: string, x: T, parseT: string -> Option<T>, parseF: string -> Option<F>)
    requires ':' !in v && parseT(v) == Some(x)
    ensures var r := ParseDistribution("constant:" + v, parseT, parseF);
      r.Success? && r.value.Constant? && MakeConstant(r.value).Sample() == x
  {
    ParseConstant(v, parseT, parseF);
  }
}
