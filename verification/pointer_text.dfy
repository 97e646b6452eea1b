/** %p: what it prints, and what it swallows. */
module PointerText {
  import opened Words
  import opened TextBuffer
  import opened Digits
  import opened FormatSpec
  import opened FormatDecode
  import opened Number
  import opened Strtoul
  import opened Render
  import StarArgs

  /** Letters and digits that begin a format are printed as they stand. */
  lemma {:induction false} RenderAlnum(f: string, args: seq<Arg>)
    ensures Render.Render(f, args) == f[..|f| - |AfterAlnum(f)|] + Render.Render(AfterAlnum(f), args)
  {
    hide Emit, DirectiveAt;
    if f == "" || !IsAlnum(f[0]) {
      assert f[..0] == "";
    } else {
      RenderAlnum(f[1..], args);
      var n := |f| - |AfterAlnum(f)|;
      assert f[..n] == [f[0]] + f[1..][..n - 1];
    }
  }

  /** Every %p, whatever its flags, width and precision, prints its pointer and then what follows,
      exactly when no letter or digit follows. */
  lemma PointerSwallows(f: string, args: seq<Arg>)
    requires DirectiveAt(f, args).spec.ftype == TypePtr
    ensures var d := DirectiveAt(f, args);
            Render.Render("%" + f, args)
            == NumberText(First(d.args).word, PointerSpec(d.spec)) + Render.Render(d.rest, Others(d.args))
            <==> d.rest == "" || !IsAlnum(d.rest[0])
  {
    hide DirectiveAt, NumberText, Render.Render, AfterAlnum;
    var d := DirectiveAt(f, args);
    StarArgs.RenderDirective(f, args);
    SwallowedShows(NumberText(First(d.args).word, PointerSpec(d.spec)), d.rest, Others(d.args));
  }

  lemma SwallowedShows(text: string, rest: string, args: seq<Arg>)
    ensures text + Render.Render(AfterAlnum(rest), args) == text + Render.Render(rest, args)
            <==> rest == "" || !IsAlnum(rest[0])
  {
    hide Render.Render;
    RenderAlnum(rest, args);
  }

  /** A plain %p takes one argument and leaves the rest of the format. */
  lemma PointerDirective(rest: string, a: Arg, args: seq<Arg>)
    ensures DirectiveAt("p" + rest, [a] + args)
            == Directive(Spec(TypePtr, -1, NO_FLAGS, 10, -1), rest, [a] + args)
  {
    var f := "p" + rest;
    assert f[1..] == rest;
    assert AfterFlags(f) == f && FlagsOf(f, NO_FLAGS) == NO_FLAGS;
  }

  /** The deviation at its simplest: the letter after %p is lost. */
  lemma PointerLosesLetter()
    ensures Render.Render("%px", [Arg(0, "")]) == Render.Render("%p", [Arg(0, "")])
    ensures Render.Render("%p", [Arg(0, "")]) + "x" != Render.Render("%px", [Arg(0, "")])
  {
    hide DirectiveAt, NumberText, PointerSpec;
    var a := Arg(0, "");
    assert "%px" == "%" + ("p" + "x") && "%p" == "%" + ("p" + "") && [a] == [a] + [];
    PointerDirective("x", a, []);
    PointerDirective("", a, []);
    StarArgs.RenderDirective("p" + "x", [a]);
    StarArgs.RenderDirective("p" + "", [a]);
    assert AfterAlnum("x") == AfterAlnum("") == "" by { OneLetter(); }
  }

  lemma OneLetter()
    ensures AfterAlnum("x") == "" && AfterAlnum("") == ""
  {
    assert "x"[1..] == "";
  }

  /** Without flags and width a pointer takes exactly sixteen hexadecimal digits, leading zeros
      included, and they read back as the pointer. */
  lemma PointerDefault(n: u64)
    ensures var text := NumberText(n, PointerSpec(Spec(TypePtr, -1, NO_FLAGS, 10, -1)));
            && |text| == 16 && (forall c | c in text :: IsHexDigit(c))
            && Parsed(text, 16) == (n, 16)
  {
    var spec := PointerSpec(Spec(TypePtr, -1, NO_FLAGS, 10, -1));
    hide NumberText, Parsed, DigitsText, Natural, Lsb;
    PointerFits(n, spec);
    NumberLength(n, spec);
    RoundTrip(n, spec);
    CleanText(n, spec);
    BodyAccepted(Repeat('0', Zeros(n, spec)), n, 16, true);
  }

  lemma PointerFits(n: u64, spec: Spec)
    requires spec.base == 16 && !spec.flags.sign && !spec.flags.special && spec.precision <= 16
    ensures 1 <= Natural(n, spec) <= 16
  {
    PowersUsed();
    hide Lsb, Pow2;
    HexFits(n, 16);
  }

  lemma {:induction false} HexFits(n: nat, k: nat)
    requires k >= 1 && n < Pow2(4 * k)
    ensures |Lsb(n, 16)| <= k
    decreases k
  {
    FourBitsMore(4 * (k - 1));
    if n < 16 {
    } else {
      assert Pow2(4) == 16;
      HexFits(n / 16, k - 1);
    }
  }
}
