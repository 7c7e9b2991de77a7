/** Environment references with every character written out: how they are read, and how they are substituted. */
module RjReference {
  import opened Wrappers
  import opened RjLexical
  import opened RjEnv

  predicate IsNameByte(b: Byte) {
    'a' <= b <= 'z' || 'A' <= b <= 'Z' || '0' <= b <= '9' || b == '_'
  }

  ghost predicate IsRefName(name: Text) {
    forall i :: 0 <= i < |name| ==> IsNameByte(name[i])
  }

  lemma {:induction false} NameIsLongest(name: Text, behind: Text)
    requires IsRefName(name) && (behind != [] ==> !IsNameByte(behind[0]))
    ensures NameLength(name + behind) == |name|
    decreases |name|
  {
    if name == [] {
      assert name + behind == behind;
    } else {
      assert (name + behind)[1..] == name[1..] + behind;
      NameIsLongest(name[1..], behind);
    }
  }

  /** The parts of a reference. */
  lemma ReferenceText(name: Text, behind: Text)
    requires IsRefName(name) && (behind != [] ==> !IsNameByte(behind[0])) && name + behind != []
    ensures var s := ['*', 'e', 'n', 'v', ':'] + name + behind;
            IsReference(s) && RefName(s[1..]) == name && AfterRef(s[1..]) == behind
  {
    hide NameLength;
    var s := ['*', 'e', 'n', 'v', ':'] + name + behind;
    var rest := s[1..];
    assert rest[..4] == ['e', 'n', 'v', ':'];
    assert rest[4..] == name + behind;
    NameIsLongest(name, behind);
    assert rest[4..4 + |name|] == name && rest[4 + |name|..] == behind;
  }

  /** Reading a reference delivers the first byte of its value and leaves the rest of it unread, or reports the name. */
  lemma ReferenceIsRead(env: Environment, name: Text, behind: Text, inString: bool)
    requires IsRefName(name) && (behind != [] ==> !IsNameByte(behind[0])) && name + behind != []
    ensures Step(env, ['*', 'e', 'n', 'v', ':'] + name + behind, inString) ==
            if name in env && env[name] != [] then Got(env[name][0], env[name][1..] + behind, inString)
            else Fail(EnvNotFound(name))
  {
    hide Skip, RefName, AfterRef, OpensReference;
    var s := ['*', 'e', 'n', 'v', ':'] + name + behind;
    ReferenceText(name, behind);
    SkipStep(s, READ_OFFSET);
  }

  /** A star that opens no reference is an ordinary byte. */
  lemma StarIsRead(env: Environment, rest: Text, inString: bool)
    requires !(|rest| > 4 && rest[0] == 'e' && rest[1] == 'n' && rest[2] == 'v' && rest[3] == ':')
    ensures Step(env, ['*'] + rest, inString) == Got('*', rest, inString)
  {
    hide Skip;
    var s := ['*'] + rest;
    assert s[1..] == rest;
    SkipStep(s, READ_OFFSET);
  }

  /** Bytes of a value that has been substituted: nothing in them is substituted again. */
  lemma {:induction false} ExpandValue(env: Environment, value: Text, behind: Text, inString: bool, k: nat)
    requires k >= 3 && forall i :: 0 <= i < |value| ==> IsNameByte(value[i])
    ensures Expand(env, value + behind, |behind|, inString, k) ==
            value + Expand(env, behind, |behind|, inString, if value == [] then k else READ_OFFSET)
    decreases |value|
  {
    hide Expand, LineEnd, BlockEnd, RefName, AfterRef;
    var s := value + behind;
    if value == [] {
      assert s == behind;
      assert value + Expand(env, behind, |behind|, inString, k) == Expand(env, behind, |behind|, inString, k);
    } else {
      ExpandStep(env, s, |behind|, inString, k);
      assert s[1..] == value[1..] + behind;
      ExpandValue(env, value[1..], behind, inString, READ_OFFSET);
      var y := Expand(env, behind, |behind|, inString, READ_OFFSET);
      assert [value[0]] + (value[1..] + y) == value + y;
    }
  }

  /** Substitution puts the value in the place of the reference, here for a value of letters, digits and underscores. */
  lemma ReferenceIsSubstituted(env: Environment, name: Text, behind: Text, inString: bool, k: nat)
    requires k >= 3 && IsRefName(name) && (behind != [] ==> !IsNameByte(behind[0])) && name + behind != []
    requires name in env && env[name] != [] && forall i :: 0 <= i < |env[name]| ==> IsNameByte(env[name][i])
    ensures var s := ['*', 'e', 'n', 'v', ':'] + name + behind;
            Expand(env, s, |s|, inString, k) ==
            env[name] + Expand(env, behind, |behind|, inString, READ_OFFSET)
  {
    hide Expand, LineEnd, BlockEnd, RefName, AfterRef, OpensReference;
    var s := ['*', 'e', 'n', 'v', ':'] + name + behind;
    ReferenceText(name, behind);
    ExpandStep(env, s, |s|, inString, k);
    ExpandValue(env, env[name], behind, inString, k);
  }
}
