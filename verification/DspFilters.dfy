/**
 The filter objects: histories kept in a buffer that is filled and then shifted, and the direct
 forms that run over it. `float` is modelled by `real`.
 */
module DspFilters {
  import opened DspStreams

  /** The first `k` elements of the buffer are the latest `k` samples of the stream. */
  ghost predicate Window(arr: seq<real>, k: nat, s: seq<real>) {
    k <= |arr| && k <= |s| && arr[..k] == s[|s| - k..]
  }

  lemma DotWindow(c: seq<real>, arr: seq<real>, k: nat, s: seq<real>)
    requires Window(arr, k, s) && |c| <= k
    ensures Dot(c, arr, k - 1) == Dot(c, s, |s| - 1)
  {
    forall i | k - 1 - |c| < i <= k - 1 ensures At(arr, i) == At(s, i + (|s| - k)) {
      assert arr[i] == arr[..k][i] == s[|s| - k..][i];
    }
    DotShift(c, arr, k - 1, s, |s| - k);
  }

  lemma WindowStart(arr: seq<real>, k: nat)
    requires k <= |arr|
    ensures Window(arr, k, arr[..k])
  {}

  /** A sample behind the window joins it. */
  lemma WindowAppend(arr: seq<real>, k: nat, s: seq<real>, p: real)
    requires Window(arr, k, s) && k < |arr|
    ensures Window(arr[k := p], k + 1, s + [p])
  {
    assert arr[k := p][..k + 1] == arr[..k] + [p];
    assert (s + [p])[|s| - k..] == s[|s| - k..] + [p];
  }

  /** The later part of a window is a window. */
  lemma WindowTail(arr: seq<real>, k: nat, s: seq<real>, arr': seq<real>, m: nat)
    requires Window(arr, k, s) && m <= k && |arr'| == |arr| && arr'[..m] == arr[k - m..k]
    ensures Window(arr', m, s)
  {
    assert arr[k - m..k] == arr[..k][k - m..];
    assert s[|s| - k..][k - m..] == s[|s| - m..];
  }

  /** The reversed dot product all filters use. */
  method Sum(upper: int, lower: nat, coefficients: array<real>, arr: array<real>, cont: nat) returns (result: real)
    requires upper < coefficients.Length && (lower <= upper ==> cont + upper < arr.Length)
    ensures result == if lower <= upper then Dot(coefficients[lower..upper + 1], arr[..], cont + upper) else 0.0
  {
    hide Dot, At;
    result := 0.0;
    var k, pos := lower, cont;
    ghost var c := if lower <= upper then coefficients[lower..upper + 1] else [];
    ghost var s := arr[..];
    assert c[0..] == c;
    DotNone(s);
    ghost var i, n := 0, cont + upper;
    while k <= upper
      invariant 0 <= i == k - lower <= |c| && n == pos + upper && pos == cont - i
      invariant result + Dot(c[i..], s, n) == Dot(c, s, cont + upper)
    {
      DotStep(c, i, s, n);
      assert c[i] == coefficients[k] && s[n] == arr[pos + upper];
      result := result + coefficients[k] * arr[pos + upper];
      pos := pos - 1;
      k := k + 1;
      i, n := i + 1, n - 1;
    }
    assert c[i..] == [];
  }

  lemma DotNone(s: seq<real>)
    ensures forall n :: Dot([], s, n) == 0.0
  {}

  lemma DotStep(c: seq<real>, i: nat, s: seq<real>, n: nat)
    requires i < |c| && n < |s|
    ensures Dot(c[i..], s, n) == c[i] * s[n] + Dot(c[i + 1..], s, n - 1)
  {
    hide Dot;
    assert c[i..][1..] == c[i + 1..];
    DotUnfold(c[i..], s, n);
  }

  /** The coefficients and the history buffers of a filter. */
  class DataFilter {
    const order: nat
    const bufferSize: nat
    const coefficientsB: array<real>
    const inputsX: array<real>
    const coefficientsA: array<real>
    const inputsY: array<real>

    ghost predicate HasX() {
      0 < bufferSize && coefficientsB.Length == order + 1 && inputsX.Length == order + bufferSize &&
        coefficientsB != inputsX
    }

    ghost predicate HasY() {
      && HasX() && coefficientsA.Length == order && inputsY.Length == order + bufferSize
      && inputsY != inputsX && inputsY != coefficientsA && inputsY != coefficientsB && inputsX != coefficientsA
    }

    ghost function B(): seq<real>
      reads coefficientsB
    {
      coefficientsB[..]
    }

    ghost function A(): seq<real>
      reads coefficientsA
    {
      coefficientsA[..]
    }

    /** The data of a FIR filter; it has no recursive part. */
    constructor Fir(order: nat, bufferSize: nat, x: seq<real>, b: seq<real>)
      requires 0 < bufferSize && order <= |x| && order + 1 <= |b|
      ensures HasX() && this.order == order && this.bufferSize == bufferSize
      ensures B() == b[..order + 1] && inputsX[..order] == x[..order] && fresh(inputsX) && fresh(coefficientsB)
    {
      this.order, this.bufferSize := order, bufferSize;
      coefficientsB := new real[order + 1];
      inputsX := new real[order + bufferSize];
      coefficientsA := new real[0];
      inputsY := new real[0];
      new;
      Copy(inputsX, x, 0, order);
      Copy(coefficientsB, b, 0, order + 1);
    }

    /** The data of an IIR filter in direct form I, with the outputs before the first input. */
    constructor FormI(order: nat, bufferSize: nat, x: seq<real>, b: seq<real>, y: seq<real>, a: seq<real>)
      requires 0 < bufferSize && order <= |x| && order + 1 <= |b| && order <= |y| && order + 1 <= |a|
      ensures HasY() && this.order == order && this.bufferSize == bufferSize
      ensures B() == b[..order + 1] && A() == a[1..order + 1]
      ensures inputsX[..order] == x[..order] && inputsY[..order] == y[..order]
      ensures fresh(inputsX) && fresh(inputsY) && fresh(coefficientsA) && fresh(coefficientsB)
    {
      this.order, this.bufferSize := order, bufferSize;
      coefficientsB := new real[order + 1];
      inputsX := new real[order + bufferSize];
      coefficientsA := new real[order];
      inputsY := new real[order + bufferSize];
      new;
      Copy(inputsX, x, 0, order);
      Copy(coefficientsB, b, 0, order + 1);
      Copy(inputsY, y, 0, order);
      Copy(coefficientsA, a, 1, order);
    }

    /** The data of an IIR filter in direct form II; its state is derived from the inputs before. */
    constructor FormII(order: nat, bufferSize: nat, x: seq<real>, b: seq<real>, a: seq<real>)
      requires 0 < bufferSize && order <= |x| && order + 1 <= |b| && order + 1 <= |a|
      ensures HasY() && this.order == order && this.bufferSize == bufferSize
      ensures B() == b[..order + 1] && A() == a[1..order + 1]
      ensures inputsX[..order] == x[..order] && inputsY[..order] == Aux(A(), x[..order])
      ensures fresh(inputsX) && fresh(inputsY) && fresh(coefficientsA) && fresh(coefficientsB)
    {
      this.order, this.bufferSize := order, bufferSize;
      coefficientsB := new real[order + 1];
      inputsX := new real[order + bufferSize];
      coefficientsA := new real[order];
      inputsY := new real[order + bufferSize];
      new;
      Copy(inputsX, x, 0, order);
      Copy(coefficientsB, b, 0, order + 1);
      Copy(coefficientsA, a, 1, order);
      CreateArrayAux();
    }

    /** The setters: copy `n` values from position `from` on. */
    static method Copy(to: array<real>, values: seq<real>, from: nat, n: nat)
      requires n <= to.Length && from + n <= |values|
      modifies to
      ensures to[..n] == values[from..from + n] && to[n..] == old(to[n..])
    {
      var cont := 0;
      while cont < n
        invariant cont <= n && to[..cont] == values[from..from + cont] && to[n..] == old(to[n..])
      {
        to[cont] := values[from + cont];
        cont := cont + 1;
      }
    }

    /** The state of direct form II that the inputs before the first one leave behind. */
    method CreateArrayAux()
      requires HasY()
      modifies inputsY
      ensures inputsY[..order] == Aux(A(), inputsX[..order])
    {
      hide Dot, Aux;
      inputsY[0] := inputsX[0];
      if order > 0 {
        AuxFirst(A(), inputsX[..order]);
        assert inputsX[..order][..1] == inputsX[..1];
        assert inputsY[..1] == [inputsX[0]] == Aux(A(), inputsX[..1]);
      }
      var cont := 0;
      while cont < order - 1
        invariant 0 <= cont && (order > 0 ==> cont <= order - 1 && inputsY[..cont + 1] == Aux(A(), inputsX[..cont + 1]))
      {
        var sum := Sum(cont, 0, coefficientsA, inputsY, 0);
        ghost var v := inputsY[..cont + 1];
        DotTruncate(A(), inputsY[..], cont);
        DotPrefix(A(), v, inputsY[..], cont);
        AuxNext(A(), inputsX[..], cont + 1);
        inputsY[cont + 1] := inputsX[cont + 1] - sum;
        assert inputsY[..cont + 2] == v + [inputsX[cont + 1] - sum];
        cont := cont + 1;
      }
    }

    /** Shift the latest `order` samples to the front, in place; the two parts may overlap. */
    method MoveArray(arr: array<real>)
      requires arr.Length == order + bufferSize && 0 < bufferSize
      modifies arr
      ensures arr[..order] == old(arr[bufferSize..])
    {
      var cont := 0;
      while cont < order
        invariant cont <= order
        invariant forall i :: 0 <= i < cont ==> arr[i] == old(arr[i + bufferSize])
        invariant forall i :: cont <= i < arr.Length ==> arr[i] == old(arr[i])
      {
        arr[cont] := arr[cont + bufferSize];
        cont := cont + 1;
      }
    }
  }

  lemma AuxFirst(a: seq<real>, x: seq<real>)
    requires 0 < |x|
    ensures Aux(a, x[..1]) == [x[0]]
  {
    assert x[..1][..0] == [];
    DotBefore(a, [], -1);
  }

  lemma AuxNext(a: seq<real>, x: seq<real>, n: nat)
    requires 0 < n < |x|
    ensures Aux(a, x[..n + 1]) == Aux(a, x[..n]) + [x[n] - Dot(a, Aux(a, x[..n]), n - 1)]
  {
    assert x[..n + 1][..n] == x[..n];
  }

  class Fir {
    const data: DataFilter
    var contBuffer: nat
    ghost var xs: seq<real>  // all inputs, with those before the first

    ghost predicate Valid()
      reads this, data.inputsX
    {
      data.HasX() && contBuffer <= data.bufferSize && Window(data.inputsX[..], data.order + contBuffer, xs)
    }

    constructor (data: DataFilter)
      requires data.HasX()
      ensures Valid() && this.data == data && xs == data.inputsX[..data.order]
    {
      hide Window;
      this.data := data;
      contBuffer := 0;
      xs := data.inputsX[..data.order];
      new;
      WindowStart(data.inputsX[..], data.order);
    }

    /** Move the history to the front when the buffer is full. */
    method MakeRoom()
      requires Valid()
      modifies `contBuffer, data.inputsX
      ensures Valid() && contBuffer < data.bufferSize && data.B() == old(data.B())
    {
      hide Dot, Window;
      var x := data.inputsX;
      if contBuffer == data.bufferSize {
        ghost var arr := x[..];
        data.MoveArray(x);
        WindowTail(arr, data.order + contBuffer, xs, x[..], data.order);
        contBuffer := 0;
      }
    }

    /** The output for the next input: the coefficients applied to the whole stream, whatever the buffer size. */
    method DirectFormI(p: real) returns (r: real)
      requires Valid()
      modifies `contBuffer, `xs, data.inputsX
      ensures Valid() && xs == old(xs) + [p] && data.B() == old(data.B())
      ensures r == Dot(data.B(), xs, |xs| - 1)
    {
      hide Dot, Window;
      MakeRoom();
      var x := data.inputsX;
      var at := data.order + contBuffer;
      WindowAppend(x[..], at, xs, p);
      x[at] := p;
      xs := xs + [p];
      r := Sum(data.order, 0, data.coefficientsB, x, contBuffer);
      DotWindow(data.B(), x[..], at + 1, xs);
      assert data.coefficientsB[0..data.order + 1] == data.B();
      contBuffer := contBuffer + 1;
    }
  }

  class Iir {
    const data: DataFilter
    var contBuffer: nat
    ghost var xs: seq<real>  // all inputs, with those before the first
    ghost var ys: seq<real>  // in form I all outputs, in form II the auxiliary stream

    ghost predicate Valid()
      reads this, data.inputsX, data.inputsY
    {
      && data.HasY() && contBuffer <= data.bufferSize && |xs| == |ys|
      && Window(data.inputsX[..], data.order + contBuffer, xs)
      && Window(data.inputsY[..], data.order + contBuffer, ys)
    }

    constructor (data: DataFilter)
      requires data.HasY()
      ensures Valid() && this.data == data && contBuffer == 0
      ensures xs == data.inputsX[..data.order] && ys == data.inputsY[..data.order]
    {
      hide Window;
      this.data := data;
      contBuffer := 0;
      xs := data.inputsX[..data.order];
      ys := data.inputsY[..data.order];
      new;
      WindowStart(data.inputsX[..], data.order);
      WindowStart(data.inputsY[..], data.order);
    }

    /** If the buffer is full, move the data. */
    method MakeRoom()
      requires Valid()
      modifies `contBuffer, data.inputsX, data.inputsY
      ensures Valid() && contBuffer < data.bufferSize
    {
      hide Window;
      if contBuffer == data.bufferSize {
        ghost var x, y := data.inputsX[..], data.inputsY[..];
        ghost var k := data.order + contBuffer;
        data.MoveArray(data.inputsX);
        data.MoveArray(data.inputsY);
        WindowTail(x, k, xs, data.inputsX[..], data.order);
        WindowTail(y, k, ys, data.inputsY[..], data.order);
        contBuffer := 0;
      }
    }

    /** What the latest samples contribute: `b` over the buffer, `a` over the samples before the next one. */
    method SumB(arr: array<real>, ghost s: seq<real>) returns (r: real)
      requires data.HasY() && contBuffer < data.bufferSize && arr.Length == data.order + data.bufferSize
      requires Window(arr[..], data.order + contBuffer + 1, s)
      ensures r == Dot(data.B(), s, |s| - 1)
    {
      hide Dot, Window;
      r := Sum(data.order, 0, data.coefficientsB, arr, contBuffer);
      DotWindow(data.B(), arr[..], data.order + contBuffer + 1, s);
      assert data.coefficientsB[0..data.order + 1] == data.B();
    }

    method SumA(arr: array<real>, ghost s: seq<real>) returns (r: real)
      requires data.HasY() && contBuffer < data.bufferSize && arr.Length == data.order + data.bufferSize
      requires Window(arr[..], data.order + contBuffer, s)
      ensures r == Dot(data.A(), s, |s| - 1)
    {
      hide Dot, Window;
      r := Sum(data.order - 1, 0, data.coefficientsA, arr, contBuffer);
      DotWindow(data.A(), arr[..], data.order + contBuffer, s);
      DotNone(s);
      assert data.coefficientsA[0..data.order] == data.A();
    }

    /** The next output: `b` applied to the inputs minus `a` applied to the outputs before, over unbounded streams. */
    method DirectFormI(p: real) returns (r: real)
      requires Valid()
      modifies `contBuffer, `xs, `ys, data.inputsX, data.inputsY
      ensures Valid() && data.B() == old(data.B()) && data.A() == old(data.A())
      ensures xs == old(xs) + [p] && ys == old(ys) + [r]
      ensures r == Dot(data.B(), xs, |xs| - 1) - Dot(data.A(), old(ys), |old(ys)| - 1)
    {
      hide Dot, Window;
      MakeRoom();
      var at := data.order + contBuffer;
      WindowAppend(data.inputsX[..], at, xs, p);
      data.inputsX[at] := p;
      xs := xs + [p];
      var resultX := SumB(data.inputsX, xs);
      var resultY := SumA(data.inputsY, ys);
      r := resultX - resultY;
      WindowAppend(data.inputsY[..], at, ys, r);
      data.inputsY[at] := r;
      ys := ys + [r];
      contBuffer := contBuffer + 1;
    }

    /** The next output from the auxiliary stream: `b` applied to it. */
    method DirectFormII(p: real) returns (r: real)
      requires Valid()
      modifies `contBuffer, `xs, `ys, data.inputsX, data.inputsY
      ensures Valid() && data.B() == old(data.B()) && data.A() == old(data.A())
      ensures xs == old(xs) + [p] && ys == old(ys) + [p - Dot(data.A(), old(ys), |old(ys)| - 1)]
      ensures r == Dot(data.B(), ys, |ys| - 1)
    {
      hide Dot, Window;
      MakeRoom();
      var at := data.order + contBuffer;
      WindowAppend(data.inputsX[..], at, xs, p);
      data.inputsX[at] := p;
      xs := xs + [p];
      var sum := SumA(data.inputsY, ys);
      var v := p - sum;
      WindowAppend(data.inputsY[..], at, ys, v);
      data.inputsY[at] := v;
      ys := ys + [v];
      r := SumB(data.inputsY, ys);
      contBuffer := contBuffer + 1;
    }
  }

  /** Form I continues the recursion it was started on. */
  lemma FromRestNext(b: seq<real>, a: seq<real>, x: seq<real>, p: real)
    ensures var y := FromRest(b, a, x);
            FromRest(b, a, x + [p]) == y + [Dot(b, x + [p], |x|) - Dot(a, y, |x| - 1)]
  {
    assert (x + [p])[..|x|] == x;
  }

  /** So does form II, and its output is that of form I. */
  lemma AuxAppend(b: seq<real>, a: seq<real>, x: seq<real>, p: real)
    ensures var v := Aux(a, x) + [p - Dot(a, Aux(a, x), |x| - 1)];
            Aux(a, x + [p]) == v && Dot(b, v, |x|) == FromRest(b, a, x + [p])[|x|]
  {
    assert (x + [p])[..|x|] == x;
    FormsAgree(b, a, x + [p]);
  }

  /**
   The two direct forms side by side, with buffers of any two sizes: if form I starts from the
   outputs the earlier inputs give from rest and form II from the state derived from those inputs,
   the outputs are equal for every further input stream.
   */
  method RunBoth(f: Iir, g: Iir, inputs: seq<real>) returns (outputs: seq<real>, outputs': seq<real>)
    requires f.Valid() && g.Valid() && f != g
    requires {f.data.inputsX, f.data.inputsY} !! {g.data.inputsX, g.data.inputsY}
    requires {f.data.inputsX, f.data.inputsY} !! {g.data.coefficientsA, g.data.coefficientsB}
    requires {g.data.inputsX, g.data.inputsY} !! {f.data.coefficientsA, f.data.coefficientsB}
    requires f.data.B() == g.data.B() && f.data.A() == g.data.A() && f.xs == g.xs
    requires f.ys == FromRest(f.data.B(), f.data.A(), f.xs) && g.ys == Aux(g.data.A(), g.xs)
    modifies f, g, f.data.inputsX, f.data.inputsY, g.data.inputsX, g.data.inputsY
    ensures outputs == outputs' && |outputs| == |inputs|
    ensures FromRest(f.data.B(), f.data.A(), old(f.xs) + inputs) == old(f.ys) + outputs
  {
    hide Dot, Aux, FromRest, Window;
    outputs, outputs' := [], [];
    ghost var b, a := f.data.B(), f.data.A();
    for i := 0 to |inputs|
      invariant f.Valid() && g.Valid() && f.data.B() == b == g.data.B() && f.data.A() == a == g.data.A()
      invariant f.xs == g.xs == old(f.xs) + inputs[..i] && |outputs| == i
      invariant f.ys == FromRest(b, a, f.xs) == old(f.ys) + outputs && g.ys == Aux(a, g.xs) && outputs == outputs'
    {
      FromRestNext(b, a, f.xs, inputs[i]);
      AuxAppend(b, a, g.xs, inputs[i]);
      ghost var xs := f.xs;
      var r := f.DirectFormI(inputs[i]);
      var r' := g.DirectFormII(inputs[i]);
      assert old(f.xs) + inputs[..i + 1] == xs + [inputs[i]];
      outputs := outputs + [r];
      outputs' := outputs' + [r'];
    }
    assert inputs[..|inputs|] == inputs;
  }
}
