/** vsnprintf: the guarded, resumable loop, proved to produce the reference rendering for every format,
    argument list and buffer size. */
module Vsnprintf {
  import opened TextBuffer
  import opened FormatSpec
  import FormatDecode
  import opened Number
  import opened PaddedText
  import opened Render

  function Min(a: nat, b: nat): nat { if a < b then a else b }

  /** Buffer o of which the first size bytes are vsnprintf's, after text has been printed into it. */
  function Printed(o: string, size: nat, text: string): (r: string)
    requires size <= |o|
    ensures |r| == |o|
  {
    if size == 0 then o else Overlay(o, size, 0, text)[Min(|text|, size - 1) := '\0']
  }

  /** What the caller sees: the longest prefix that leaves room for the NUL, the NUL, and everything
      after it untouched; nothing at all for size 0. */
  lemma PrintedIsPrefix(o: string, size: nat, text: string)
    requires size <= |o|
    ensures size == 0 ==> Printed(o, size, text) == o
    ensures size > 0 ==>
              var n := Min(|text|, size - 1);
              Printed(o, size, text) == text[..n] + ['\0'] + o[n + 1..]
  {
    if size > 0 {
      var n := Min(|text|, size - 1);
      var r := Printed(o, size, text);
      forall k | 0 <= k < |o| ensures r[k] == (text[..n] + ['\0'] + o[n + 1..])[k] {
      }
    }
  }

  /** The FORMAT_TYPE_NONE case: memcpy as much of the literal run as fits. */
  method CopyLiteral(out: array<char>, end: nat, pos: nat, run: string) returns (next: nat)
    requires end <= out.Length
    modifies out
    ensures out[..] == Overlay(old(out[..]), end, pos, run)
    ensures next == pos + |run|
  {
    if pos < end {
      var copy := |run|;
      if copy > end - pos { copy := end - pos; }
      MemCpy(out, pos, run, copy);
    }
    next := pos + |run|;
  }

  /** The cases of the switch that print; %c counts down the width field itself. */
  method EmitConversion(out: array<char>, end: nat, pos: nat, spec: Spec, a: Arg) returns (next: nat, s: Spec)
    requires end <= out.Length && Sound(spec) && IsCString(a.text)
    requires spec.ftype != TypeNone && !Pending(spec.ftype) && spec.ftype != TypeInvalid
    modifies out
    ensures out[..] == Overlay(old(out[..]), end, pos, ConversionText(spec, a))
    ensures next == pos + |ConversionText(spec, a)|
    ensures InField(s) && s.ftype == spec.ftype
  {
    hide Overlay, NumberText, StringText, CharText, IntegerOf, PointerSpec;
    s := spec;
    if spec.ftype == TypeChar {
      var w: int;
      next, w := PutChar(out, end, pos, (a.word % 256) as char, spec);
      s := s.(fieldWidth := w);
    } else if spec.ftype == TypeStr {
      next := String(out, end, pos, a.text, spec);
    } else if spec.ftype == TypePtr {
      next := PointerString(out, end, pos, a.word, spec);
    } else if spec.ftype == TypePercent {
      next := Put(out, end, pos, '%');
    } else {
      next := Number.Number(out, end, pos, IntegerOf(spec.ftype, a), spec);
    }
  }

  /** while (isalnum(*fmt)) fmt++ */
  method SkipAlnum(fmt: string, start: nat) returns (next: nat)
    requires start <= |fmt|
    ensures start <= next <= |fmt| && fmt[next..] == AfterAlnum(fmt[start..])
  {
    next := start;
    while IsAlnum(At(fmt, next))
      invariant start <= next <= |fmt|
      invariant AfterAlnum(fmt[next..]) == AfterAlnum(fmt[start..])
      decreases |fmt| - next
    {
      FormatDecode.Suffix(fmt, next);
      next := next + 1;
    }
    if next < |fmt| { FormatDecode.Suffix(fmt, next); }
  }

  /** The argument list: how many have been taken so far. */
  function Left(args: seq<Arg>, taken: nat): seq<Arg> {
    if taken <= |args| then args[taken..] else []
  }

  function Taken(args: seq<Arg>, k: nat): (a: Arg)
    ensures a == First(Left(args, k))
  {
    if k < |args| then args[k] else NO_ARG
  }

  lemma TakeNext(args: seq<Arg>, k: nat)
    ensures Left(args, k + 1) == Others(Left(args, k))
  {
    if k < |args| { assert args[k..][1..] == args[k + 1..]; }
  }

  /** What is still to be printed. */
  function ToCome(fmt: string, i: nat, args: seq<Arg>, k: nat, s: Spec): string
    requires i <= |fmt| && InField(s)
  {
    RenderFrom(fmt[i..], Left(args, k), s)
  }

  /** A complete conversion: print it, skip what %p swallows, take its argument. */
  method FinishConversion(out: array<char>, size: nat, fmt: string, i: nat, args: seq<Arg>, k: nat, spec: Spec,
                          str: nat, ghost o: string, ghost text: string)
    returns (i': nat, k': nat, s: Spec, str': nat)
    requires size <= out.Length && i <= |fmt| && forall a | a in args :: IsCString(a.text)
    requires Sound(spec) && spec.ftype != TypeNone && !Pending(spec.ftype) && spec.ftype != TypeInvalid
    requires out[..] == Overlay(o, size, 0, text) && str == |text|
    modifies out
    ensures i <= i' <= |fmt| && InField(s)
    ensures var t := text + ConversionText(spec, First(Left(args, k)));
            out[..] == Overlay(o, size, 0, t) && str' == |t|
    ensures Emit(Directive(spec, fmt[i..], Left(args, k)))
            == ConversionText(spec, First(Left(args, k))) + ToCome(fmt, i', args, k', s)
  {
    hide Overlay, Render.Render, ConversionText, Left, ToCome, AfterAlnum;
    var a := Taken(args, k);
    TakenIsCString(args, k);
    TakeNext(args, k);
    OverlayAppend(o, size, 0, text, ConversionText(spec, a));
    str', s := EmitConversion(out, size, str, spec, a);
    i' := i;
    if spec.ftype == TypePtr { i' := SkipAlnum(fmt, i); }
    k' := if spec.ftype == TypePercent then k else k + 1;
    Settled(fmt, i', args, k', s);
  }

  /** Between two conversions the spec no longer matters. */
  lemma Settled(fmt: string, i: nat, args: seq<Arg>, k: nat, s: Spec)
    requires i <= |fmt| && InField(s) && !Pending(s.ftype)
    ensures ToCome(fmt, i, args, k, s) == Render.Render(fmt[i..], Left(args, k))
  {
  }

  lemma TakenIsCString(args: seq<Arg>, k: nat)
    requires forall a | a in args :: IsCString(a.text)
    ensures IsCString(Taken(args, k).text)
  {
    if k < |args| { assert args[k] in args; }
  }

  /** What each outcome of a format_decode call that moved from i to j means for what is to come. */
  ghost predicate Outcome(fmt: string, i: nat, spec: Spec, args: seq<Arg>, k: nat, j: nat, s: Spec)
    requires i <= j <= |fmt| && InField(spec)
  {
    if s.ftype == TypeNone then
      InField(s) && ToCome(fmt, i, args, k, spec) == fmt[i..j] + ToCome(fmt, j, args, k, s)
    else if Pending(s.ftype) then
      var t := Supplied(s, First(Left(args, k)));
      InField(t) && ToCome(fmt, i, args, k, spec) == ToCome(fmt, j, args, k + 1, t)
    else Sound(s) && ToCome(fmt, i, args, k, spec) == Emit(Directive(s, fmt[j..], Left(args, k)))
  }

  lemma OutcomeHolds(fmt: string, i: nat, spec: Spec, args: seq<Arg>, k: nat, j: nat, s: Spec)
    requires i <= j <= |fmt| && i < |fmt| && InField(spec)
    requires FormatDecode.Decode(fmt[i..], spec) == FormatDecode.Decoded(fmt[j..], s)
    ensures Outcome(fmt, i, spec, args, k, j, s)
  {
    hide RenderFrom, Emit, FormatDecode.Decode, Left, Supplied, InField, Sound;
    FormatDecode.Suffix(fmt, i);
    DecodeStep(fmt[i..], Left(args, k), spec);
    if s.ftype == TypeNone {
      assert fmt[i..][..|fmt[i..]| - |fmt[j..]|] == fmt[i..j];
    } else if Pending(s.ftype) {
      TakeNext(args, k);
    }
  }

  /** The call of format_decode. */
  method Read(fmt: string, i: nat, spec: Spec, ghost args: seq<Arg>, ghost k: nat) returns (j: nat, s: Spec)
    requires i < |fmt| && IsCString(fmt) && InField(spec)
    ensures i <= j <= |fmt| && (s.ftype != TypeInvalid ==> i < j)
    ensures Outcome(fmt, i, spec, args, k, j, s)
  {
    hide FormatDecode.Decode, Outcome, InField;
    FormatDecode.DecodeProgress(fmt[i..], spec);
    j, s := FormatDecode.Run(fmt, i, spec);
    OutcomeHolds(fmt, i, spec, args, k, j, s);
  }

  /** One round of the loop. */
  method Round(out: array<char>, size: nat, fmt: string, i: nat, args: seq<Arg>, k: nat, spec: Spec, str: nat,
               ghost o: string, ghost text: string)
    returns (i': nat, k': nat, s: Spec, str': nat, done: bool, ghost text': string)
    requires size <= out.Length && i < |fmt| && IsCString(fmt) && forall a | a in args :: IsCString(a.text)
    requires InField(spec) && out[..] == Overlay(o, size, 0, text) && str == |text|
    modifies out
    ensures i <= i' <= |fmt| && (!done ==> i < i')
    ensures out[..] == Overlay(o, size, 0, text') && str' == |text'|
    ensures done ==> text' == text + ToCome(fmt, i, args, k, spec)
    ensures !done ==> InField(s) && text' + ToCome(fmt, i', args, k', s) == text + ToCome(fmt, i, args, k, spec)
  {
    hide Overlay, Emit, ConversionText, Left, ToCome, InField, Sound, Wrap24, Wrap16;
    i', s := Read(fmt, i, spec, args, k);
    k', str', done, text' := k, str, false, text;
    if s.ftype == TypeNone {
      OverlayAppend(o, size, 0, text, fmt[i..i']);
      str' := CopyLiteral(out, size, str, fmt[i..i']);
      text' := text + fmt[i..i'];
      Associates(text, fmt[i..i'], ToCome(fmt, i', args, k, s));
    } else if s.ftype == TypeWidth {
      s := s.(fieldWidth := Wrap24(IntOf(Taken(args, k))));
      k' := k + 1;
    } else if s.ftype == TypePrecision {
      s := s.(precision := Wrap16(IntOf(Taken(args, k))));
      k' := k + 1;
    } else if s.ftype == TypeInvalid {
      EmitInvalid(Directive(s, fmt[i'..], Left(args, k)));
      done := true;
    } else {
      ghost var t := ConversionText(s, First(Left(args, k)));
      i', k', s, str' := FinishConversion(out, size, fmt, i', args, k, s, str, o, text);
      text' := text + t;
      Associates(text, t, ToCome(fmt, i', args, k', s));
    }
  }

  lemma Associates(a: string, b: string, c: string)
    ensures a + b + c == a + (b + c)
  {
  }

  /** vsnprintf. The result is the length of the full rendering whatever the size; the buffer receives
      its prefix and a NUL; nothing outside the first size bytes changes. */
  method Vsnprintf(out: array<char>, size: nat, fmt: string, args: seq<Arg>) returns (n: nat)
    requires size <= out.Length
    requires IsCString(fmt) && forall a | a in args :: IsCString(a.text)
    modifies out
    ensures n == |Render.Render(fmt, args)|
    ensures out[..] == Printed(old(out[..]), size, Render.Render(fmt, args))
  {
    ghost var o, text := out[..], "";
    OverlayNothing(o, size, 0);
    StartState(fmt, args);
    hide Overlay, ToCome, Render.Render;
    var spec, i, k := ZERO_SPEC, 0, 0;
    n := 0;
    var done := false;
    while i < |fmt| && !done
      invariant 0 <= i <= |fmt| && InField(spec)
      invariant out[..] == Overlay(o, size, 0, text) && n == |text|
      invariant Render.Render(fmt, args) == if done then text else text + ToCome(fmt, i, args, k, spec)
      decreases |fmt| - i, !done
    {
      i, k, spec, n, done, text := Round(out, size, fmt, i, args, k, spec, n, o, text);
      if done { break; }
    }
    if !done { NothingToCome(fmt, args, k, spec); }
    if size > 0 {
      if n < size {
        out[n] := '\0';
      } else {
        out[size - 1] := '\0';
      }
    }
  }

  lemma StartState(fmt: string, args: seq<Arg>)
    ensures Render.Render(fmt, args) == "" + ToCome(fmt, 0, args, 0, ZERO_SPEC)
  {
    hide Emit, DirectiveAt;
    assert fmt[0..] == fmt && Left(args, 0) == args;
  }

  lemma NothingToCome(fmt: string, args: seq<Arg>, k: nat, s: Spec)
    requires InField(s)
    ensures ToCome(fmt, |fmt|, args, k, s) == ""
  {
  }
}
