/** A whole run of `tr`: from its operands and its input to its output. */
module Tr {
  import opened Streams
  import opened TrSpec
  import opened TrFilter
  import TrParse
  import opened TrValidate
  import TrTable
  import TrTranslate

  datatype Options = Options(complement: bool, delete: bool, squeeze: bool, truncate: bool)

  /** Whether one operand, or two, are what the options ask for. */
  predicate OperandsFit(o: Options, two: bool) {
    if two then o.delete ==> o.squeeze else o.delete != o.squeeze
  }

  /** Membership of each byte in a set, or in its complement. */
  function Table(chars: seq<byte>, complement: bool): (t: seq<bool>)
    ensures |t| == N_CHARS && forall c: byte :: t[c] <==> (c in chars) != complement
  {
    seq(N_CHARS, i requires 0 <= i < N_CHARS => (i in chars) != complement)
  }

  /** The second set may be used for squeezing what deleting has left. */
  predicate Acceptable2Squeeze(es1: seq<Construct>, es2: seq<Construct>)
    requires ValidList(es1) && ValidList(es2)
  {
    Acceptable1(es1) && |Expand(es2)| <= REPEAT_COUNT_MAXIMUM && CountIndefinite(es2) == 0
  }

  /** The output for one set, or None for a set that is rejected. */
  function Output1(o: Options, es1: seq<Construct>, input: seq<byte>): Option<seq<byte>>
    requires ValidList(es1)
  {
    if !Acceptable1(es1) then None
    else
      var set1 := Table(Expand(es1), o.complement);
      Some(if o.squeeze then Squeezed(set1, input) else Deleted(set1, input))
  }

  /** The output for two sets. */
  function Output2(o: Options, es1: seq<Construct>, es2: seq<Construct>, input: seq<byte>): Option<seq<byte>>
    requires ValidList(es1) && ValidList(es2)
  {
    if o.delete then
      if !Acceptable2Squeeze(es1, es2) then None
      else Some(Squeezed(Table(Expand(es2), false), Deleted(Table(Expand(es1), o.complement), input)))
    else if !Acceptable2(es1, es2, o.complement, o.truncate) then None
    else
      var translated := Translated(TrTranslate.TableOf(es1, es2, o.complement, o.truncate), input);
      var set2 := Expand(Prepared(es2, Length1(es1, o.complement), o.truncate));
      Some(if o.squeeze then Squeezed(Table(set2, false), translated) else translated)
  }

  /** What a run writes, or None if it exits with a diagnostic before it reads. */
  ghost function Output(o: Options, string1: seq<byte>, string2: Option<seq<byte>>, input: seq<byte>)
    : Option<seq<byte>>
  {
    if !OperandsFit(o, string2.Some?) || TrParse.Parse(string1) == None then None
    else if string2 == None then Output1(o, TrParse.Parse(string1).value, input)
    else if TrParse.Parse(string2.value) == None then None
    else Output2(o, TrParse.Parse(string1).value, TrParse.Parse(string2.value).value, input)
  }

  method SetOf(s: SpecList, complement: bool) returns (set': array<bool>)
    requires ValidList(s.elems)
    modifies s`tail, s`state
    ensures fresh(set') && set'[..] == Table(Expand(s.elems), complement)
  {
    hide Expand;
    set' := new bool[N_CHARS](_ => false);
    TrTable.SetInitialize(s, complement, set');
    var t := Table(Expand(s.elems), complement);
    forall i | 0 <= i < N_CHARS
      ensures set'[i] == t[i]
    {
      var c: byte := i;
      assert set'[c] == t[c];
    }
  }

  /** Copies what one of the readers delivers. */
  method CopyAll(input: Input, buf: array<byte>) returns (output: seq<byte>)
    requires input.Valid() && buf.Length > 0 && buf != input.xlate
    modifies input.source, buf
    ensures output == old(input.Todo())
  {
    output := [];
    assert output + input.Todo() == input.Todo();
    while true
      invariant input.Valid() && old(input.Todo()) == output + input.Todo()
      decreases |input.Todo()|
    {
      ghost var before := input.Todo();
      var nr := input.Read(buf);
      if nr == 0 {
        assert output + [] == output;
        return;
      }
      assert output + (buf[..nr] + input.Todo()) == (output + buf[..nr]) + input.Todo();
      output := output + buf[..nr];
    }
  }

  /** One operand: squeezing or deleting. */
  method RunOne(o: Options, s1: SpecList, stdin: Reader, buf: array<byte>) returns (output: Option<seq<byte>>)
    requires o.delete != o.squeeze && ValidList(s1.elems) && stdin.Valid() && buf.Length > 0
    modifies s1, stdin, buf
    ensures output == Output1(o, old(s1.elems), old(stdin.Rest()))
  {
    hide Expand, Squeezed, Deleted, Acceptable1;
    var ok := ValidateOne(s1, o.complement);
    if !ok {
      return None;
    }
    var set1 := SetOf(s1, o.complement);
    var unused := new byte[N_CHARS];
    var out;
    if o.squeeze {
      var input := new Input(stdin, Plain, set1, unused);
      out := SqueezeFilter(input, buf, set1);
    } else {
      var input := new Input(stdin, Deleting, set1, unused);
      out := CopyAll(input, buf);
    }
    output := Some(out);
  }

  /** Two operands without translation: deleting by the first set, then squeezing by the second. */
  method RunDeleteSqueeze(o: Options, s1: SpecList, s2: SpecList, stdin: Reader, buf: array<byte>)
    returns (output: Option<seq<byte>>)
    requires o.delete && o.squeeze && s1 != s2 && ValidList(s1.elems) && ValidList(s2.elems)
    requires stdin.Valid() && buf.Length > 0
    modifies s1, s2, stdin, buf
    ensures output == Output2(o, old(s1.elems), old(s2.elems), old(stdin.Rest()))
  {
    hide Expand, Squeezed, Deleted, CountIndefinite;
    var ok := ValidateOne(s1, o.complement);
    if !ok {
      return None;
    }
    LengthFits(s1.elems, o.complement);
    ok := GetS2SpecStats(s2, s1.length);
    if !ok || s2.nIndefinite > 0 {
      return None;
    }
    ResolvedAlready(s2.elems, s1.length);
    assert s2.elems == old(s2.elems);
    var set1 := SetOf(s1, o.complement);
    var set2 := SetOf(s2, false);
    var unused := new byte[N_CHARS];
    var input := new Input(stdin, Deleting, set1, unused);
    var out := SqueezeFilter(input, buf, set2);
    output := Some(out);
  }

  lemma LengthFits(es1: seq<Construct>, complement: bool)
    requires ValidList(es1) && Acceptable1(es1)
    ensures Length1(es1, complement) <= REPEAT_COUNT_MAXIMUM
  {
    ComplementSize(Expand(es1));
  }

  lemma ResolvedAlready(es2: seq<Construct>, n: nat)
    requires ValidList(es2) && n <= REPEAT_COUNT_MAXIMUM
    ensures CountIndefinite(es2) == 0 ==> Resolved(es2, n) == es2
  {
  }

  /** Two operands: translation, and squeezing by the second set if asked for. */
  method RunTranslate(o: Options, s1: SpecList, s2: SpecList, stdin: Reader, buf: array<byte>)
    returns (output: Option<seq<byte>>)
    requires !o.delete && s1 != s2 && ValidList(s1.elems) && ValidList(s2.elems) && s2.tail == |s2.elems|
    requires stdin.Valid() && buf.Length > 0
    modifies s1, s2, stdin, buf
    ensures output == Output2(o, old(s1.elems), old(s2.elems), old(stdin.Rest()))
  {
    hide Expand, Squeezed, Translated, TrTranslate.TableOf, Acceptable2, Prepared;
    var ok, xlate := TrTranslate.BuildTable(s1, s2, o.complement, o.truncate);
    if !ok {
      return None;
    }
    var unused := new bool[N_CHARS](_ => false);
    var input := new Input(stdin, Translating, unused, xlate);
    var out;
    if o.squeeze {
      var set2 := SetOf(s2, false);
      out := SqueezeFilter(input, buf, set2);
    } else {
      out := CopyAll(input, buf);
    }
    output := Some(out);
  }

  /** A run with its operands: the output is a function of the whole input, whatever the reads, the size of
      the buffer included. */
  method Run(o: Options, string1: seq<byte>, string2: Option<seq<byte>>, stdin: Reader, size: nat)
    returns (output: Option<seq<byte>>)
    requires 0 !in string1 && (string2.Some? ==> 0 !in string2.value) && stdin.Valid() && size > 0
    modifies stdin
    ensures output == Output(o, string1, string2, old(stdin.Rest()))
  {
    hide TrParse.Parse, Output1, Output2;
    if !OperandsFit(o, string2.Some?) {
      return None;
    }
    var buf := new byte[size];
    var s1 := new SpecList();
    var ok := TrParse.ParseStr(string1, s1);
    if !ok {
      return None;
    }
    assert [] + TrParse.Parse(string1).value == TrParse.Parse(string1).value;
    if string2 == None {
      output := RunOne(o, s1, stdin, buf);
      return;
    }
    var s2 := new SpecList();
    ok := TrParse.ParseStr(string2.value, s2);
    if !ok {
      return None;
    }
    assert [] + TrParse.Parse(string2.value).value == TrParse.Parse(string2.value).value;
    if o.delete {
      output := RunDeleteSqueeze(o, s1, s2, stdin, buf);
    } else {
      output := RunTranslate(o, s1, s2, stdin, buf);
    }
  }

  // ----- what translation comes to -----

  /** Where the last occurrence of c in s is. */
  function LastIndex(s: seq<byte>, c: byte): (i: nat)
    requires c in s
    ensures i < |s| && s[i] == c && c !in s[i + 1..]
  {
    if s[|s| - 1] == c then |s| - 1
    else
      var i := LastIndex(s[..|s| - 1], c);
      assert s[i + 1..] == s[..|s| - 1][i + 1..] + [s[|s| - 1]];
      i
  }

  /** The byte that c becomes when string 1 is translated to string 2. */
  function Image(set1: seq<byte>, set2: seq<byte>, c: byte): byte
    requires set2 != [] || set1 == []
  {
    if c !in set1 then c
    else if LastIndex(set1, c) < |set2| then set2[LastIndex(set1, c)]
    else set2[|set2| - 1]
  }

  /** Two accepted sets whose case classes pair opposite cases, plain translation: every byte of the input is
      replaced by its image, the last occurrence in string 1 deciding and string 2 being continued by its
      last byte. */
  lemma TranslationIsBytewise(o: Options, es1: seq<Construct>, es2: seq<Construct>, input: seq<byte>)
    requires ValidList(es1) && ValidList(es2) && !o.delete && !o.squeeze && !o.truncate
    requires Acceptable2(es1, es2, o.complement, false) && TrTranslate.OppositeCases(es1, es2, o.complement)
    ensures var set1, set2 := TrTranslate.Set1(es1, o.complement), Expand(Resolved(es2, Length1(es1, o.complement)));
      && (set2 != [] || set1 == [])
      && Output2(o, es1, es2, input) == Some(seq(|input|, k requires 0 <= k < |input| => Image(set1, set2, input[k])))
  {
    hide Expand, TrTranslate.TableOf, Prepared, TrTranslate.OppositeCases, TrTable.ZipTable, Image;
    TrTranslate.TablesAgree(es1, es2, o.complement);
    var set1, set2 := TrTranslate.Set1(es1, o.complement), Expand(Resolved(es2, Length1(es1, o.complement)));
    forall c: byte
      ensures TrTable.ZipTable(set1, set2)[c] == Image(set1, set2, c)
    {
      ZipTableAt(set1, set2, c);
    }
    var out := Output2(o, es1, es2, input);
    assert out.value == seq(|input|, k requires 0 <= k < |input| => Image(set1, set2, input[k]));
  }

  lemma ZipTableAt(set1: seq<byte>, set2: seq<byte>, c: byte)
    requires set2 != [] || set1 == []
    ensures TrTable.ZipTable(set1, set2)[c] == Image(set1, set2, c)
  {
    hide TrTable.Assign;
    if set1 != [] {
      TrTable.AssignLastWins(TrTable.Identity(), set1, TrTable.Continued(set2, |set1|), c);
    }
  }

  /** Any mapping of bytes can be asked for: operands written in octal escapes translate by the two byte
      strings they were written from. */
  lemma OctalOperands(a: seq<byte>, b: seq<byte>, input: seq<byte>)
    requires |a| <= REPEAT_COUNT_MAXIMUM && |b| <= REPEAT_COUNT_MAXIMUM && (b != [] || a == [])
    ensures Output(Options(false, false, false, false), TrParse.Octal(a), Some(TrParse.Octal(b)), input)
         == Some(seq(|input|, k requires 0 <= k < |input| => Image(a, b, input[k])))
  {
    hide Expand, TrParse.Parse, Image, Output2;
    var o := Options(false, false, false, false);
    var es1, es2 := TrParse.NormalChars(a), TrParse.NormalChars(b);
    TrParse.OctalRoundTrip(a);
    TrParse.OctalRoundTrip(b);
    NoIndefinite(es1);
    NoIndefinite(es2);
    TranslationIsBytewise(o, es1, es2, input);
  }
}
