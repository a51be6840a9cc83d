/**
 * The text form of a record whose fields hold strings: `Cls(f1=<repr>, f2=<repr>)`,
 * fields in declaration order, each value written by `repr`, joined by ", ".
 * This is the form a dataclass gives its instances and the form RegularCard
 * writes by hand. A parser that reads it back shows that the text determines
 * the field values.
 */
module Records {
  import opened Results
  import opened PyText

  /** One field of a record: its declared name and its (string) value. */
  datatype Field = Field(name: string, value: string)

  function Names(fs: seq<Field>): (r: seq<string>)
    ensures |r| == |fs| && forall i :: 0 <= i < |fs| ==> r[i] == fs[i].name
  {
    seq(|fs|, i requires 0 <= i < |fs| => fs[i].name)
  }

  function Values(fs: seq<Field>): (r: seq<string>)
    ensures |r| == |fs| && forall i :: 0 <= i < |fs| ==> r[i] == fs[i].value
  {
    seq(|fs|, i requires 0 <= i < |fs| => fs[i].value)
  }

  /** `name=repr(value)` for each field, in order. */
  function Assignments(fs: seq<Field>): (r: seq<string>)
    ensures |r| == |fs|
  {
    if fs == [] then [] else [fs[0].name + "=" + Repr(fs[0].value)] + Assignments(fs[1..])
  }

  /** The text form of a record of class `cls` with fields `fs`. */
  function Render(cls: string, fs: seq<Field>): string {
    cls + "(" + Join(Assignments(fs), ", ") + ")"
  }

  /** A record with two fields: `Cls(f=<repr>, g=<repr>)`. */
  lemma RenderTwo(cls: string, f: Field, g: Field)
    ensures Render(cls, [f, g]) ==
      cls + "(" + f.name + "=" + Repr(f.value) + ", " + g.name + "=" + Repr(g.value) + ")"
  {
    var fs := [f, g];
    assert fs[1..] == [g] && fs[1..][1..] == [];
    var a := Assignments(fs);
    assert a == [f.name + "=" + Repr(f.value)] + Assignments([g]);
    assert Assignments([g]) == [g.name + "=" + Repr(g.value)] + Assignments([]);
    JoinCons(a, ", ");
    assert a[1..] == [g.name + "=" + Repr(g.value)];
    JoinOne(a[1..], ", ");
  }

  /** Reads `name=<literal>, …)` for the expected field names and gives the values. */
  function ParseFields(names: seq<string>, s: string): Option<seq<string>>
    decreases |names|
  {
    if names == [] then (if s == ")" then Some([]) else None)
    else
      var key := names[0] + "=";
      if !(key <= s) then None
      else match ParseLiteral(s[|key|..])
        case None => None
        case Some((v, rest)) =>
          if |names| == 1 then (if rest == ")" then Some([v]) else None)
          else if !(", " <= rest) then None
          else match ParseFields(names[1..], rest[2..])
            case None => None
            case Some(vs) => Some([v] + vs)
  }

  /** Reads the text form of a record of class `cls` with fields `names`. */
  function Parse(cls: string, names: seq<string>, text: string): Option<seq<string>> {
    var head := cls + "(";
    if head <= text then ParseFields(names, text[|head|..]) else None
  }

  lemma ParseField(f: Field, more: string)
    ensures var key := f.name + "="; var s := f.name + "=" + Repr(f.value) + more;
      key <= s && ParseLiteral(s[|key|..]) == Some((f.value, more))
  {
    var key := f.name + "=";
    var s := f.name + "=" + Repr(f.value) + more;
    assert s == key + (Repr(f.value) + more);
    assert s[|key|..] == Repr(f.value) + more;
    ParseRepr(f.value, more);
  }

  lemma {:induction false} ParseRenderedFields(fs: seq<Field>)
    ensures ParseFields(Names(fs), Join(Assignments(fs), ", ") + ")") == Some(Values(fs))
  {
    if fs == [] {
    } else if |fs| == 1 {
      ParseRenderedLast(fs);
    } else {
      var tail := Join(Assignments(fs[1..]), ", ") + ")";
      var s := Join(Assignments(fs), ", ") + ")";
      RenderedFieldsCons(fs);
      ParseField(fs[0], ", " + tail);
      ParseRenderedFields(fs[1..]);
      var names := Names(fs);
      assert names[0] == fs[0].name && names[1..] == Names(fs[1..]);
      assert (", " + tail)[2..] == tail;
      ParseFieldsStep(names, s, fs[0].value, ", " + tail, Values(fs[1..]));
      assert Values(fs) == [fs[0].value] + Values(fs[1..]);
    }
  }

  /** Reading a field that is not the last: its value, then the remaining fields after ", ". */
  lemma ParseFieldsStep(names: seq<string>, s: string, v: string, rest: string, vs: seq<string>)
    requires |names| > 1
    requires names[0] + "=" <= s
    requires ParseLiteral(s[|names[0] + "="|..]) == Some((v, rest))
    requires ", " <= rest
    requires ParseFields(names[1..], rest[2..]) == Some(vs)
    ensures ParseFields(names, s) == Some([v] + vs)
  {
  }

  lemma ParseRenderedLast(fs: seq<Field>)
    requires |fs| == 1
    ensures ParseFields(Names(fs), Join(Assignments(fs), ", ") + ")") == Some(Values(fs))
  {
    var s := Join(Assignments(fs), ", ") + ")";
    assert Assignments(fs) == [fs[0].name + "=" + Repr(fs[0].value)] + Assignments(fs[1..]);
    assert Assignments(fs[1..]) == [];
    JoinOne(Assignments(fs), ", ");
    assert s == fs[0].name + "=" + Repr(fs[0].value) + ")";
    ParseField(fs[0], ")");
    assert Values(fs) == [fs[0].value];
  }

  lemma RenderedFieldsCons(fs: seq<Field>)
    requires |fs| > 1
    ensures Join(Assignments(fs), ", ") + ")" ==
      fs[0].name + "=" + Repr(fs[0].value) + (", " + (Join(Assignments(fs[1..]), ", ") + ")"))
  {
    AssignmentsCons(fs);
    JoinClosed(Assignments(fs));
  }

  lemma AssignmentsCons(fs: seq<Field>)
    requires |fs| > 0
    ensures Assignments(fs)[0] == fs[0].name + "=" + Repr(fs[0].value)
    ensures Assignments(fs)[1..] == Assignments(fs[1..])
  {
  }

  /** At least two entries joined by ", " and closed by ")": the first, then ", " and the closed rest. */
  lemma JoinClosed(a: seq<string>)
    requires |a| > 1
    ensures Join(a, ", ") + ")" == a[0] + (", " + (Join(a[1..], ", ") + ")"))
  {
    JoinCons(a, ", ");
  }

  /** The text form reads back as the field values it was written from. */
  lemma ParseRender(cls: string, fs: seq<Field>)
    ensures Parse(cls, Names(fs), Render(cls, fs)) == Some(Values(fs))
  {
    var head := cls + "(";
    var body := Join(Assignments(fs), ", ") + ")";
    assert Render(cls, fs) == head + body;
    assert (head + body)[|head|..] == body;
    ParseRenderedFields(fs);
  }

  /** Records of one class with the same field names have the same text form exactly when their values agree. */
  lemma RenderInjective(cls: string, fs: seq<Field>, gs: seq<Field>)
    requires Names(fs) == Names(gs)
    ensures Render(cls, fs) == Render(cls, gs) <==> fs == gs
  {
    if Render(cls, fs) == Render(cls, gs) {
      ParseRender(cls, fs);
      ParseRender(cls, gs);
      assert Values(fs) == Values(gs);
      assert forall i :: 0 <= i < |fs| ==> fs[i] == Field(Names(fs)[i], Values(fs)[i]);
      assert forall i :: 0 <= i < |gs| ==> gs[i] == Field(Names(gs)[i], Values(gs)[i]);
    }
  }
}
