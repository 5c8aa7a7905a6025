/** The placeholder formatter of format.h: `str(fmt, args...)` replaces
    `_1` by the first argument, then `_2` by the second, and so on, each
    time replacing every occurrence in the string as it stands. */
module Format {
  import Seqs
  import Numbers
  import Utf8
  import opened Chars

  /** The argument types the program passes: strings and integers. */
  datatype Arg = Text(text: string) | Number(n: int)

  /** `format(value)`: `QString("%1").arg(value)`, the value's own text. */
  function FormatArg(a: Arg): (s: string)
    ensures a.Text? ==> s == a.text
    ensures a.Number? ==> |s| >= 1 && (Numbers.AllDigits(s) || (s[0] == '-' && Numbers.AllDigits(s[1..])))
  {
    match a
    case Text(text) => text
    case Number(n) => Numbers.Decimal(n)
  }

  /** `detail::key(index)`: an underscore and the index in decimal. */
  function Key(index: int): (k: string)
    ensures |k| >= 2 && k[0] == '_' && '_' !in k[1..]
    ensures Seqs.Unbordered(k)
  {
    var digits := Numbers.Decimal(index);
    assert '_' !in digits by {
      if index >= 0 {
        assert Numbers.AllDigits(digits);
      } else {
        assert digits == [digits[0]] + digits[1..];
      }
    }
    var k := "_" + digits;
    assert k[1..] == digits;
    k
  }

  /** The chain of `detail::format_arg` calls from `index` on: one
      replace-all per argument, in order. */
  function Chain(s: string, index: int, args: seq<Arg>): string
    decreases |args|
  {
    if args == [] then s
    else Chain(Seqs.ReplaceAll(s, Key(index), FormatArg(args[0])), index + 1, args[1..])
  }

  /** The substitution `str` performs from `index` on. A string free of
      the placeholders of the arguments comes back unchanged. */
  function Substitute(s: string, index: int, args: seq<Arg>): (r: string)
    ensures Free(s, index, |args|) ==> r == s
  {
    ChainAbsent(s, index, args);
    Chain(s, index, args)
  }

  lemma {:induction false} ChainAbsent(s: string, index: int, args: seq<Arg>)
    ensures Free(s, index, |args|) ==> Chain(s, index, args) == s
    decreases |args|
  {
    if args != [] {
      Seqs.ReplaceAllAbsent(s, Key(index), FormatArg(args[0]));
      ChainAbsent(Seqs.ReplaceAll(s, Key(index), FormatArg(args[0])), index + 1, args[1..]);
    }
  }

  /** None of the placeholders `_index` to `_(index + n - 1)` occurs
      in `s`. */
  predicate Free(s: string, index: int, n: nat) {
    forall k :: index <= k < index + n ==> !Seqs.Occurs(s, Key(k))
  }

  /** `str(fmt, args...)`; the variadic template needs at least one
      argument. A format string without the placeholders `_1` to `_n`
      comes back as it is. */
  function Str(fmt: string, args: seq<Arg>): (r: string)
    requires |args| >= 1
    ensures Free(fmt, 1, |args|) ==> r == fmt
  {
    Substitute(fmt, 1, args)
  }

  /** The code points of a string. */
  function CodePoints(s: string): (w: seq<Wide>)
    ensures |w| == |s|
  {
    seq(|s|, i requires 0 <= i < |s| => s[i] as int)
  }

  /** `utf8(fmt, args...)`: `str`, then `QString::toUtf8`. */
  function Utf8Str(fmt: string, args: seq<Arg>): (r: seq<Byte>)
    requires |args| >= 1
    ensures Utf8.DecodeStringFixed(r) == CodePoints(Str(fmt, args))
  {
    var w := CodePoints(Str(fmt, args));
    Utf8.RoundTrip(w);
    Utf8.Encode(w)
  }

  // ---------------------------------------------------------------- keys

  /** Different indices have different keys: a key reads back as its
      index. */
  lemma KeyInjective(i: int, j: int)
    requires Key(i) == Key(j)
    ensures i == j
  {
    assert Key(i)[1..] == Numbers.Decimal(i) && Key(j)[1..] == Numbers.Decimal(j);
    DecimalInjective(i, j);
  }

  lemma DecimalInjective(i: int, j: int)
    requires Numbers.Decimal(i) == Numbers.Decimal(j)
    ensures i == j
  {
    var s := Numbers.Decimal(i);
    assert i < 0 <==> s[0] == '-';
    assert j < 0 <==> s[0] == '-';
    if i >= 0 {
      assert Numbers.ValueOf(s) == i && Numbers.ValueOf(s) == j;
    } else {
      assert s[1..] == Numbers.DigitsOf(-i) && s[1..] == Numbers.DigitsOf(-j);
    }
  }

  // ---------------------------------------------------------------- substitution

  /** Substitution is sequential: the arguments of `a` are used first,
      then those of `b` on what they left, at the following indices. */
  lemma SubstituteAppend(s: string, index: int, a: seq<Arg>, b: seq<Arg>)
    ensures Substitute(s, index, a + b) == Substitute(Substitute(s, index, a), index + |a|, b)
  {
    ChainAppend(s, index, a, b);
  }

  lemma {:induction false} ChainAppend(s: string, index: int, a: seq<Arg>, b: seq<Arg>)
    ensures Chain(s, index, a + b) == Chain(Chain(s, index, a), index + |a|, b)
    decreases |a|
  {
    if a == [] {
      assert a + b == b;
    } else {
      var t := Seqs.ReplaceAll(s, Key(index), FormatArg(a[0]));
      Seqs.AppendFront(a, b);
      assert Chain(s, index, a + b) == Chain(t, index + 1, a[1..] + b);
      assert Chain(s, index, a) == Chain(t, index + 1, a[1..]);
      ChainAppend(t, index + 1, a[1..], b);
    }
  }

  /** One `format_arg` call, then the rest of the chain. */
  lemma SubstituteStep(s: string, index: int, args: seq<Arg>)
    requires args != []
    ensures Substitute(s, index, args)
         == Substitute(Seqs.ReplaceAll(s, Key(index), FormatArg(args[0])), index + 1, args[1..])
  {
  }

  /** Each step replaces every occurrence of its placeholder: the text
      between occurrences is kept and each occurrence becomes the
      argument; the later arguments then work on that result. */
  lemma FirstStepReplacesAll(parts: seq<string>, a: Arg, rest: seq<Arg>)
    requires forall i :: 0 <= i < |parts| ==> !Seqs.Occurs(parts[i], Key(1))
    ensures Str(Seqs.Join(parts, Key(1)), [a] + rest) == Substitute(Seqs.Join(parts, FormatArg(a)), 2, rest)
  {
    Seqs.ReplaceAllJoin(parts, Key(1), FormatArg(a));
    assert ([a] + rest)[0] == a && ([a] + rest)[1..] == rest;
    SubstituteStep(Seqs.Join(parts, Key(1)), 1, [a] + rest);
  }

  /** The keys of the first indices. */
  lemma SmallKeys()
    ensures Key(1) == "_1" && Key(2) == "_2"
  {
    assert Numbers.DigitsOf(1) == "1";
    assert Numbers.DigitsOf(2) == "2";
  }

  /** "_10" is not the tenth placeholder: `_1` is replaced first, and
      what remains of it is a plain "0". */
  lemma TenIsOneThenZero(x: string)
    ensures Str("_10", [Text(x)]) == x + "0"
  {
    SmallKeys();
    var once := Seqs.ReplaceAll("_10", "_1", x);
    assert once == x + "0" by {
      assert "_10" == "_1" + "0";
      Seqs.ReplaceAllAtFront("_1", x, "0");
    }
    assert [Text(x)][1..] == [];
    SubstituteStep("_10", 1, [Text(x)]);
    assert Str("_10", [Text(x)]) == Substitute(once, 2, []);
  }

  /** Text that an earlier argument puts in is itself substituted later:
      a first argument "_2" is replaced by the second argument. */
  lemma InsertedPlaceholderReplaced(y: string)
    ensures Str("_1", [Text("_2"), Text(y)]) == y
  {
    SmallKeys();
    var args := [Text("_2"), Text(y)];
    assert Seqs.ReplaceAll("_1", "_1", "_2") == "_2" by {
      Seqs.ReplaceAllAtFront("_1", "_2", []);
      assert "_1" + [] == "_1";
    }
    assert Seqs.ReplaceAll("_2", "_2", y) == y by {
      Seqs.ReplaceAllAtFront("_2", y, []);
      assert "_2" + [] == "_2";
    }
    assert args[1..] == [Text(y)] && args[1..][1..] == [];
    SubstituteStep("_1", 1, args);
    SubstituteStep("_2", 2, [Text(y)]);
    assert Str("_1", args) == Substitute("_2", 2, [Text(y)]);
    assert Substitute("_2", 2, [Text(y)]) == Substitute(y, 3, []);
  }
}
