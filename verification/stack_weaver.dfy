/** `StackWeaver` (`lib/pf2/reporter/stack_weaver.rb`): merges a sample's
    native stack into its Ruby stack. Both stacks are leaf-first and are
    consumed from their root ends, starting on the native side; the woven
    stack is built by prepending, so it is leaf-first again. Ruby's bare
    `raise` and the `NoMethodError` of reading a field of `nil` are
    errors. */
module StackWeaver {
  import opened Wrappers
  import opened ReportProfile

  datatype WeaveError = RuntimeError | NoMethodError

  datatype Side = RubySide | NativeSide

  /** The native function that hands control to the Ruby VM. */
  const VmExecCore: string := "vm_exec_core"

  /** `out` merges `a` and `b`: read from the end, each element of `out` is
      the last remaining element of one of them. */
  predicate Interleaves(out: seq<nat>, a: seq<nat>, b: seq<nat>)
    decreases |out|
  {
    if |out| == 0 then a == [] && b == []
    else
      || (|a| > 0 && a[|a| - 1] == out[|out| - 1] && Interleaves(out[..|out| - 1], a[..|a| - 1], b))
      || (|b| > 0 && b[|b| - 1] == out[|out| - 1] && Interleaves(out[..|out| - 1], a, b[..|b| - 1]))
  }

  /** An interleaving holds every element of both inputs exactly as often
      as they do, and nothing else. */
  lemma {:induction false} InterleavesKeepsElements(out: seq<nat>, a: seq<nat>, b: seq<nat>)
    requires Interleaves(out, a, b)
    ensures |out| == |a| + |b|
    ensures multiset(out) == multiset(a) + multiset(b)
    decreases |out|
  {
    if |out| > 0 {
      var front := out[..|out| - 1];
      assert out == front + [out[|out| - 1]];
      if |a| > 0 && a[|a| - 1] == out[|out| - 1] && Interleaves(front, a[..|a| - 1], b) {
        InterleavesKeepsElements(front, a[..|a| - 1], b);
        assert a == a[..|a| - 1] + [a[|a| - 1]];
      } else {
        InterleavesKeepsElements(front, a, b[..|b| - 1]);
        assert b == b[..|b| - 1] + [b[|b| - 1]];
      }
    }
  }

  /** Interleaving with nothing gives the sequence back. */
  lemma {:induction false} InterleavesWithEmpty(out: seq<nat>, a: seq<nat>)
    requires Interleaves(out, a, [])
    ensures out == a
    decreases |out|
  {
    if |out| > 0 {
      InterleavesWithEmpty(out[..|out| - 1], a[..|a| - 1]);
      assert out == out[..|out| - 1] + [out[|out| - 1]];
      assert a == a[..|a| - 1] + [a[|a| - 1]];
    }
  }

  /** Whether some function in `remainder`, searched from its root end, has
      the start address `address`; a location met before the match that
      does not resolve fails. */
  function AnyStartsAt(p: Profile, address: int, remainder: seq<nat>): (r: Result<bool, WeaveError>)
    ensures AllResolve(p, remainder) ==>
      r == Success(exists i :: 0 <= i < |remainder| && FunctionOf(p, remainder[i]).value.startAddress == Some(address))
    ensures r == Success(true) ==>
      exists i :: 0 <= i < |remainder| && Resolves(p, remainder[i]) && FunctionOf(p, remainder[i]).value.startAddress == Some(address)
    decreases |remainder|
  {
    if |remainder| == 0 then Success(false)
    else
      var last := remainder[|remainder| - 1];
      match FunctionOf(p, last)
      case None => Failure(NoMethodError)
      case Some(f) =>
        if f.startAddress == Some(address) then Success(true)
        else
          var r := AnyStartsAt(p, address, remainder[..|remainder| - 1]);
          assert forall i :: 0 <= i < |remainder| - 1 ==> remainder[..|remainder| - 1][i] == remainder[i];
          r
  }

  /** Every location of the stack resolves to a function. */
  predicate AllResolve(p: Profile, stack: seq<nat>) {
    forall i :: 0 <= i < |stack| ==> Resolves(p, stack[i])
  }

  /** `should_switch_to_native?`: only for Ruby functions; a function with a
      start address (a C function called from Ruby) hands back to the
      native side when a native frame still to be woven has the same
      start address. */
  function ShouldSwitchToNative(p: Profile, locationIndex: nat, remainder: seq<nat>): (r: Result<bool, WeaveError>)
    ensures !Resolves(p, locationIndex) ==> r == Failure(NoMethodError)
    ensures Resolves(p, locationIndex) && FunctionOf(p, locationIndex).value.implementation != RubyImpl ==>
      r == Failure(RuntimeError)
    ensures Resolves(p, locationIndex) && FunctionOf(p, locationIndex).value.startAddress.None? ==>
      r.Success? ==> !r.value
    ensures Resolves(p, locationIndex) && FunctionOf(p, locationIndex).value.implementation == RubyImpl && AllResolve(p, remainder) ==>
      r == Success(exists i :: 0 <= i < |remainder| &&
                     FunctionOf(p, locationIndex).value.startAddress.Some? &&
                     FunctionOf(p, remainder[i]).value.startAddress == FunctionOf(p, locationIndex).value.startAddress)
  {
    match FunctionOf(p, locationIndex)
    case None => Failure(NoMethodError)
    case Some(f) =>
      if f.implementation != RubyImpl then Failure(RuntimeError)
      else if f.startAddress.None? then Success(false)
      else AnyStartsAt(p, f.startAddress.value, remainder)
  }

  /** `should_switch_to_ruby?`: only for native functions; the VM's
      execution loop hands over to the Ruby side. */
  function ShouldSwitchToRuby(p: Profile, locationIndex: nat): (r: Result<bool, WeaveError>)
    ensures !Resolves(p, locationIndex) ==> r == Failure(NoMethodError)
    ensures Resolves(p, locationIndex) ==>
      (r.Success? <==> FunctionOf(p, locationIndex).value.implementation == NativeImpl)
    ensures r.Success? ==> (r.value <==> FunctionOf(p, locationIndex).value.name == Some(VmExecCore))
    ensures r.Failure? && Resolves(p, locationIndex) ==> r.error == RuntimeError
  {
    match FunctionOf(p, locationIndex)
    case None => Failure(NoMethodError)
    case Some(f) =>
      if f.implementation != NativeImpl then Failure(RuntimeError)
      else Success(f.name == Some(VmExecCore))
  }

  /** The frames of a stack all resolve to functions of the given kind. */
  predicate AllOfKind(p: Profile, stack: seq<nat>, kind: Implementation) {
    forall i :: 0 <= i < |stack| ==> Resolves(p, stack[i]) && FunctionOf(p, stack[i]).value.implementation == kind
  }

  /** The stacks the weaver accepts: Ruby frames of Ruby functions, native
      frames of native functions. */
  predicate WellKinded(p: Profile, ruby: seq<nat>, native: seq<nat>) {
    AllOfKind(p, ruby, RubyImpl) && AllOfKind(p, native, NativeImpl)
  }

  /** The loop of `weave` from a given state: the result is the part of the
      woven stack still to be prepended. Each step pops one frame, or
      switches to the other side when the current one is empty (and the
      other one then is not), so the loop ends. */
  function WeaveFrom(p: Profile, ruby: seq<nat>, native: seq<nat>, current: Side): (r: Result<seq<nat>, WeaveError>)
    ensures r.Success? ==> Interleaves(r.value, ruby, native)
    ensures r.Success? ==> WellKinded(p, ruby, native)
    decreases |ruby| + |native|, if current == RubySide then |ruby| == 0 else |native| == 0
  {
    if |ruby| == 0 && |native| == 0 then Success([])
    else match current
      case RubySide =>
        if |ruby| == 0 then WeaveFrom(p, ruby, native, NativeSide)
        else
          var x := ruby[|ruby| - 1];
          var switch :- ShouldSwitchToNative(p, x, native);
          var rest :- WeaveFrom(p, ruby[..|ruby| - 1], native, if switch then NativeSide else RubySide);
          assert (rest + [x])[..|rest|] == rest;
          assert forall i :: 0 <= i < |ruby| - 1 ==> ruby[..|ruby| - 1][i] == ruby[i];
          Success(rest + [x])
      case NativeSide =>
        if |native| == 0 then WeaveFrom(p, ruby, native, RubySide)
        else
          var x := native[|native| - 1];
          var switch :- ShouldSwitchToRuby(p, x);
          var rest :- WeaveFrom(p, ruby, native[..|native| - 1], if switch then RubySide else NativeSide);
          assert (rest + [x])[..|rest|] == rest;
          assert forall i :: 0 <= i < |native| - 1 ==> native[..|native| - 1][i] == native[i];
          Success(rest + [x])
  }

  /** Well-kinded stacks never make the loop fail, from any state. */
  lemma {:induction false} WeaveFromSucceeds(p: Profile, ruby: seq<nat>, native: seq<nat>, current: Side)
    requires WellKinded(p, ruby, native)
    ensures WeaveFrom(p, ruby, native, current).Success?
    decreases |ruby| + |native|, if current == RubySide then |ruby| == 0 else |native| == 0
  {
    if |ruby| == 0 && |native| == 0 {
    } else if current == RubySide {
      if |ruby| == 0 {
        WeaveFromSucceeds(p, ruby, native, NativeSide);
      } else {
        var x := ruby[|ruby| - 1];
        assert AllResolve(p, native);
        var switch := ShouldSwitchToNative(p, x, native).value;
        assert WellKinded(p, ruby[..|ruby| - 1], native);
        WeaveFromSucceeds(p, ruby[..|ruby| - 1], native, if switch then NativeSide else RubySide);
      }
    } else {
      if |native| == 0 {
        WeaveFromSucceeds(p, ruby, native, RubySide);
      } else {
        var x := native[|native| - 1];
        var switch := ShouldSwitchToRuby(p, x).value;
        assert WellKinded(p, ruby, native[..|native| - 1]);
        WeaveFromSucceeds(p, ruby, native[..|native| - 1], if switch then RubySide else NativeSide);
      }
    }
  }

  /** `weave`: starts on the native side. The inputs are values, so they
      are left as they were. */
  function Weave(p: Profile, ruby: seq<nat>, native: seq<nat>): (r: Result<seq<nat>, WeaveError>)
    ensures r.Success? ==> Interleaves(r.value, ruby, native)
  {
    WeaveFrom(p, ruby, native, NativeSide)
  }

  /** Weaving begins at the native root: it is the last (outermost) frame
      of the woven stack. */
  lemma {:induction false} WeaveStartsAtNativeRoot(p: Profile, ruby: seq<nat>, native: seq<nat>)
    requires Weave(p, ruby, native).Success? && |native| > 0
    ensures var w := Weave(p, ruby, native).value; |w| > 0 && w[|w| - 1] == native[|native| - 1]
  {
    var x := native[|native| - 1];
    var switch := ShouldSwitchToRuby(p, x).value;
    var rest := WeaveFrom(p, ruby, native[..|native| - 1], if switch then RubySide else NativeSide).value;
    assert Weave(p, ruby, native).value == rest + [x];
  }

  /** The weaver succeeds exactly on well-kinded stacks, and then every
      frame of both stacks appears in the result once per occurrence. */
  lemma WeaveSucceedsIffWellKinded(p: Profile, ruby: seq<nat>, native: seq<nat>)
    ensures Weave(p, ruby, native).Success? <==> WellKinded(p, ruby, native)
    ensures Weave(p, ruby, native).Success? ==>
      && |Weave(p, ruby, native).value| == |ruby| + |native|
      && multiset(Weave(p, ruby, native).value) == multiset(ruby) + multiset(native)
  {
    if WellKinded(p, ruby, native) {
      WeaveFromSucceeds(p, ruby, native, NativeSide);
    }
    if Weave(p, ruby, native).Success? {
      InterleavesKeepsElements(Weave(p, ruby, native).value, ruby, native);
    }
  }

  /** With no native frames the woven stack is the Ruby stack. */
  lemma RubyOnly(p: Profile, ruby: seq<nat>)
    requires AllOfKind(p, ruby, RubyImpl)
    ensures Weave(p, ruby, []) == Success(ruby)
  {
    WeaveFromSucceeds(p, ruby, [], NativeSide);
    InterleavesWithEmpty(Weave(p, ruby, []).value, ruby);
  }

  /** A function of the given kind and start address, otherwise blank. */
  function TestFunction(kind: Implementation, name: string, startAddress: Option<int>): Function {
    Function(kind, Some(name), None, Some(1), startAddress)
  }

  /** A profile whose location `i` belongs to function `i`. */
  function TestProfile(functions: seq<Function>): (p: Profile)
    ensures |p.locations| == |functions| && p.functions == functions
    ensures forall i :: 0 <= i < |functions| ==> Resolves(p, i) && FunctionOf(p, i) == Some(functions[i])
  {
    Profile(1, 1, [], seq(|functions|, (i: int) requires 0 <= i => Location(i, 1, None)), functions)
  }

  /** The Ruby-only case: no native frames, no start addresses. */
  lemma WeaveRubyOnlyExample()
    ensures Weave(TestProfile([TestFunction(RubyImpl, "one", None), TestFunction(RubyImpl, "two", None)]),
                  [1, 0, 0], []) == Success([1, 0, 0])
  {
    var p := TestProfile([TestFunction(RubyImpl, "one", None), TestFunction(RubyImpl, "two", None)]);
    RubyOnly(p, [1, 0, 0]);
  }

  /** One step of the loop on the Ruby side: its leafmost remaining
      frame goes in front of the rest of the weave. */
  lemma RubyStep(p: Profile, ruby: seq<nat>, native: seq<nat>, switch: bool, rest: seq<nat>)
    requires |ruby| > 0
    requires ShouldSwitchToNative(p, ruby[|ruby| - 1], native) == Success(switch)
    requires WeaveFrom(p, ruby[..|ruby| - 1], native, if switch then NativeSide else RubySide) == Success(rest)
    ensures WeaveFrom(p, ruby, native, RubySide) == Success(rest + [ruby[|ruby| - 1]])
  {
  }

  /** One step of the loop on the native side. */
  lemma NativeStep(p: Profile, ruby: seq<nat>, native: seq<nat>, switch: bool, rest: seq<nat>)
    requires |native| > 0
    requires ShouldSwitchToRuby(p, native[|native| - 1]) == Success(switch)
    requires WeaveFrom(p, ruby, native[..|native| - 1], if switch then RubySide else NativeSide) == Success(rest)
    ensures WeaveFrom(p, ruby, native, NativeSide) == Success(rest + [native[|native| - 1]])
  {
  }

  /** The slices and concatenations the two examples below go through. */
  lemma WeaveLiterals()
    ensures var none: seq<nat> := [];
      && [1][..0] == none && [3][..0] == none && [4][..0] == none
      && [1, 0][..1] == [1] && [3, 2][..1] == [3] && [4, 3][..1] == [4] && [4, 3, 2][..2] == [4, 3]
      && none + [1] == [1] && none + [4] == [4]
      && [1] + [0] == [1, 0] && [1, 0] + [3] == [1, 0, 3] && [1, 0, 3] + [2] == [1, 0, 3, 2]
      && [4] + [1] == [4, 1] && [4, 1] + [0] == [4, 1, 0] && [4, 1, 0] + [3] == [4, 1, 0, 3]
      && [4, 1, 0, 3] + [2] == [4, 1, 0, 3, 2]
  {
  }

  /** Native `main`, the VM's loop, and two Ruby functions, one of them
      with a start address. */
  function BothProfile(): Profile {
    TestProfile([TestFunction(RubyImpl, "<main>", None), TestFunction(RubyImpl, "pure_ruby", Some(123)),
                 TestFunction(NativeImpl, "main", None), TestFunction(NativeImpl, VmExecCore, None)])
  }

  /** Native `main` enters the VM through `vm_exec_core`, which then runs
      the whole Ruby stack. */
  lemma WeaveBothExample()
    ensures Weave(BothProfile(), [1, 0], [3, 2]) == Success([1, 0, 3, 2])
  {
    var p := BothProfile();
    var none: seq<nat> := [];
    WeaveLiterals();
    assert ShouldSwitchToNative(p, 1, none) == Success(false) by {
      assert FunctionOf(p, 1) == Some(TestFunction(RubyImpl, "pure_ruby", Some(123)));
    }
    assert ShouldSwitchToNative(p, 0, none) == Success(false) by {
      assert FunctionOf(p, 0) == Some(TestFunction(RubyImpl, "<main>", None));
    }
    assert ShouldSwitchToRuby(p, 3) == Success(true) by {
      assert FunctionOf(p, 3) == Some(TestFunction(NativeImpl, VmExecCore, None));
    }
    assert ShouldSwitchToRuby(p, 2) == Success(false) by {
      assert FunctionOf(p, 2) == Some(TestFunction(NativeImpl, "main", None));
    }
    assert WeaveFrom(p, [1], none, RubySide) == Success([1]) by {
      RubyStep(p, [1], none, false, none);
    }
    assert WeaveFrom(p, [1, 0], none, RubySide) == Success([1, 0]) by {
      RubyStep(p, [1, 0], none, false, [1]);
    }
    assert WeaveFrom(p, [1, 0], [3], NativeSide) == Success([1, 0, 3]) by {
      NativeStep(p, [1, 0], [3], true, [1, 0]);
    }
    NativeStep(p, [1, 0], [3, 2], false, [1, 0, 3]);
  }

  /** The profile of the C function case: the Ruby function `cfunc` and the
      native function `native` share a start address. */
  function CfuncProfile(): Profile {
    TestProfile([TestFunction(RubyImpl, "<main>", None), TestFunction(RubyImpl, "cfunc", Some(123)),
                 TestFunction(NativeImpl, "main", None), TestFunction(NativeImpl, VmExecCore, None),
                 TestFunction(NativeImpl, "native", Some(123))])
  }

  /** A Ruby C function whose start address matches a native frame hands
      the leaf back to the native side. */
  lemma WeaveCfuncExample()
    ensures Weave(CfuncProfile(), [1, 0], [4, 3, 2]) == Success([4, 1, 0, 3, 2])
  {
    var p := CfuncProfile();
    var none: seq<nat> := [];
    WeaveLiterals();
    assert ShouldSwitchToRuby(p, 4) == Success(false) by {
      assert FunctionOf(p, 4) == Some(TestFunction(NativeImpl, "native", Some(123)));
    }
    assert ShouldSwitchToNative(p, 1, [4]) == Success(true) by {
      assert FunctionOf(p, 1) == Some(TestFunction(RubyImpl, "cfunc", Some(123)));
      assert FunctionOf(p, 4) == Some(TestFunction(NativeImpl, "native", Some(123)));
    }
    assert ShouldSwitchToNative(p, 0, [4]) == Success(false) by {
      assert FunctionOf(p, 0) == Some(TestFunction(RubyImpl, "<main>", None));
    }
    assert ShouldSwitchToRuby(p, 3) == Success(true) by {
      assert FunctionOf(p, 3) == Some(TestFunction(NativeImpl, VmExecCore, None));
    }
    assert ShouldSwitchToRuby(p, 2) == Success(false) by {
      assert FunctionOf(p, 2) == Some(TestFunction(NativeImpl, "main", None));
    }
    assert WeaveFrom(p, none, [4], NativeSide) == Success([4]) by {
      NativeStep(p, none, [4], false, none);
    }
    assert WeaveFrom(p, [1], [4], RubySide) == Success([4, 1]) by {
      RubyStep(p, [1], [4], true, [4]);
    }
    assert WeaveFrom(p, [1, 0], [4], RubySide) == Success([4, 1, 0]) by {
      RubyStep(p, [1, 0], [4], false, [4, 1]);
    }
    assert WeaveFrom(p, [1, 0], [4, 3], NativeSide) == Success([4, 1, 0, 3]) by {
      NativeStep(p, [1, 0], [4, 3], true, [4, 1, 0]);
    }
    NativeStep(p, [1, 0], [4, 3, 2], false, [4, 1, 0, 3]);
  }
}
