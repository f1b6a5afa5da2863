/**
 * `cx` (`pkg/util/ReactUtil.tsx`): builds a `className` from its arguments by
 * dropping the falsy ones and joining the rest with single spaces.
 */
module ReactUtil {
  import opened Seqs
  import opened Strings

  /**
   * An argument of `cx`: the values callers pass, a class name, a condition
   * such as `isFocused && "focused"`, a number, `null` or `undefined`.
   */
  datatype ClassArg = Str(s: string) | Bool(b: bool) | Num(n: int) | Null | Undefined

  /** `!!c`: the empty string, `false`, `0`, `null` and `undefined` are falsy. */
  predicate Truthy(c: ClassArg)
  {
    match c
    case Str(s) => s != ""
    case Bool(b) => b
    case Num(n) => n != 0
    case Null => false
    case Undefined => false
  }

  /** How `Array.prototype.join` writes an element: `String(c)`, and nothing for `null` and `undefined`. */
  function Text(c: ClassArg): string
  {
    match c
    case Str(s) => s
    case Bool(b) => if b then "true" else "false"
    case Num(n) => if n < 0 then "-" + Decimal(-n) else Decimal(n)
    case Null => ""
    case Undefined => ""
  }

  function Texts(cs: seq<ClassArg>): (r: seq<string>)
    ensures |r| == |cs|
    ensures forall k | 0 <= k < |cs| :: r[k] == Text(cs[k])
  {
    seq(|cs|, k requires 0 <= k < |cs| => Text(cs[k]))
  }

  /** `cx(...classes)`. */
  function Cx(classes: seq<ClassArg>): string
  {
    Join(Texts(Filter(classes, Truthy)), " ")
  }

  /** A truthy argument never writes as the empty string. */
  lemma TruthyTextNonEmpty(c: ClassArg)
    requires Truthy(c)
    ensures Text(c) != ""
  {
  }

  /** With no arguments, or only falsy ones, the class name is empty. */
  lemma CxAllFalsy(classes: seq<ClassArg>)
    requires forall k | 0 <= k < |classes| :: !Truthy(classes[k])
    ensures Cx(classes) == ""
  {
    FilterKeepsNone(classes, Truthy);
  }

  /** The class name is empty exactly when no argument is truthy. */
  lemma CxEmptyIff(classes: seq<ClassArg>)
    ensures Cx(classes) == "" <==> forall k | 0 <= k < |classes| :: !Truthy(classes[k])
  {
    var kept := Filter(classes, Truthy);
    if exists k | 0 <= k < |classes| :: Truthy(classes[k]) {
      var k :| 0 <= k < |classes| && Truthy(classes[k]);
      FilterMembership(classes, Truthy, classes[k]);
      assert |kept| >= 1;
      TruthyTextNonEmpty(kept[0]);
      var texts := Texts(kept);
      assert |Join(texts, " ")| >= |texts[0]|;
    } else {
      CxAllFalsy(classes);
    }
  }

  /** A single non-empty class name comes back unchanged. */
  lemma CxSingle(s: string)
    requires s != ""
    ensures Cx([Str(s)]) == s
  {
    assert Filter([Str(s)], Truthy) == [Str(s)];
  }

  /** A falsy argument, wherever it stands, changes nothing. */
  lemma CxDropsFalsy(before: seq<ClassArg>, c: ClassArg, after: seq<ClassArg>)
    requires !Truthy(c)
    ensures Cx(before + [c] + after) == Cx(before + after)
  {
    FilterConcat(before + [c], after, Truthy);
    FilterConcat(before, [c], Truthy);
    FilterConcat(before, after, Truthy);
    assert Filter([c], Truthy) == [];
    assert Filter(before, Truthy) + [] == Filter(before, Truthy);
  }

  /**
   * Split at the spaces, the class name gives back the texts of the truthy
   * arguments in their original order, provided some argument is truthy and
   * no kept text holds a space.
   */
  lemma CxWords(classes: seq<ClassArg>)
    requires exists k | 0 <= k < |classes| :: Truthy(classes[k])
    requires forall k | 0 <= k < |classes| :: Truthy(classes[k]) ==> ' ' !in Text(classes[k])
    ensures Split(Cx(classes), ' ') == Texts(Filter(classes, Truthy))
    ensures IsSubsequence(Filter(classes, Truthy), classes)
  {
    var kept := Filter(classes, Truthy);
    var k :| 0 <= k < |classes| && Truthy(classes[k]);
    FilterMembership(classes, Truthy, classes[k]);
    forall j | 0 <= j < |kept| ensures ' ' !in Texts(kept)[j] {
      FilterMembership(classes, Truthy, kept[j]);
    }
    assert " " == [' '];
    SplitJoin(Texts(kept), ' ');
    FilterIsSubsequence(classes, Truthy);
  }
}
