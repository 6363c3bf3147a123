/**
 The header correlation check of the paired scripts: identifiers are split on ':' and, field
 by field, the parts before the first space must agree. `zip` stops at the shorter list of
 fields, so fields beyond the common count are never compared.
 */
module Headers {
  import opened Text

  /** The ':'-separated fields of a header, `header.split(':')`. */
  function Fields(header: string): seq<string>
  {
    SplitOn(header, ':')
  }

  /** The loop over `zip(fields1, fields2)` that returns False at the first pair of differing keys. */
  function FieldsAgree(xs: seq<string>, ys: seq<string>): bool
    decreases |xs|
  {
    if |xs| == 0 || |ys| == 0 then true
    else FieldKey(xs[0]) == FieldKey(ys[0]) && FieldsAgree(xs[1..], ys[1..])
  }

  /** The loop passes exactly when every pair of fields `zip` forms has equal keys. */
  lemma {:induction false} FieldsAgreeMeaning(xs: seq<string>, ys: seq<string>)
    ensures FieldsAgree(xs, ys) <==> forall i :: 0 <= i < |xs| && i < |ys| ==> FieldKey(xs[i]) == FieldKey(ys[i])
    decreases |xs|
  {
    if |xs| > 0 && |ys| > 0 {
      FieldsAgreeMeaning(xs[1..], ys[1..]);
      assert forall i :: 1 <= i < |xs| && i < |ys| ==> xs[1..][i - 1] == xs[i] && ys[1..][i - 1] == ys[i];
    }
  }

  /** Fields appended after a header's own are ignored: a header agrees with any extension of itself. */
  lemma ExtraFieldsIgnored(header: string, extra: string)
    ensures FieldsAgree(Fields(header), Fields(header + [':'] + extra))
  {
    SplitOnConcat(header, extra, ':');
    var xs := Fields(header);
    assert forall i :: 0 <= i < |xs| ==> Fields(header + [':'] + extra)[i] == xs[i];
    FieldsAgreeMeaning(xs, Fields(header + [':'] + extra));
  }

  /** What follows the first space inside a field (a read number, say) is never compared. */
  lemma {:induction false} TextAfterSpaceIgnored(key: string, a: string, b: string)
    requires ' ' !in key && ':' !in key
    ensures FieldsAgree([key + " " + a], [key + " " + b])
  {
    FieldKeyBeforeSpace(key, a);
    FieldKeyBeforeSpace(key, b);
  }

  lemma {:induction false} FieldKeyBeforeSpace(key: string, rest: string)
    requires ' ' !in key
    ensures FieldKey(key + " " + rest) == key
  {
    var e := key + " " + rest;
    assert e[|key|] == ' ';
    FieldKeyShape(e);
  }
}
