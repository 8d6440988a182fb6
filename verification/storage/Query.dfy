/** The simple meaning of a query: conditions checked one by one against a document. */
module Queries {
  import opened Index

  const OP_EQ := "eq"
  const OP_NE := "ne"
  const OP_GT := "gt"
  const OP_LT := "lt"
  const OP_CONTAINS := "contains"

  datatype Condition = Condition(field: string, op: string, value: string)

  /** Byte-wise order of strings. */
  predicate Less(a: string, b: string) {
    if b == "" then false
    else if a == "" then true
    else a[0] < b[0] || (a[0] == b[0] && Less(a[1..], b[1..]))
  }

  predicate Contains(s: string, part: string) {
    exists i | 0 <= i <= |s| :: part <= s[i..]
  }

  predicate Meets(data: Data, c: Condition) {
    if c.field !in data then c.op == OP_NE else
    var v := data[c.field];
    if c.op == OP_EQ then v == c.value
    else if c.op == OP_NE then v != c.value
    else if c.op == OP_GT then !(v == c.value || Less(v, c.value))
    else if c.op == OP_LT then !(v == c.value || Less(c.value, v))
    else if c.op == OP_CONTAINS then c.value == "" || Contains(v, c.value)
    else false
  }

  predicate Matches(data: Data, conds: seq<Condition>) {
    forall c | c in conds :: Meets(data, c)
  }

  /** Equal, greater and less split the values of a field; unequal is the rest. */
  lemma {:induction false} OrderSplits(a: string, b: string)
    ensures a == b ==> !Less(a, b) && !Less(b, a)
    ensures a != b ==> (Less(a, b) <==> !Less(b, a))
  {
    if a != "" && b != "" && a[0] == b[0] {
      OrderSplits(a[1..], b[1..]);
      assert a == [a[0]] + a[1..] && b == [b[0]] + b[1..];
    }
  }

  /** On a field that is there, exactly one of eq, gt and lt holds, and ne is not eq. */
  lemma ExactlyOne(data: Data, field: string, value: string)
    requires field in data
    ensures var eq := Meets(data, Condition(field, OP_EQ, value));
            var gt := Meets(data, Condition(field, OP_GT, value));
            var lt := Meets(data, Condition(field, OP_LT, value));
            && (eq || gt || lt) && !(eq && gt) && !(eq && lt) && !(gt && lt)
            && (Meets(data, Condition(field, OP_NE, value)) <==> !eq)
  {
    OrderSplits(data[field], value);
  }

  lemma {:induction false} LessTransitive(a: string, b: string, c: string)
    requires Less(a, b) && Less(b, c)
    ensures Less(a, c)
  {
    if a != "" && a[0] == b[0] && b[0] == c[0] {
      LessTransitive(a[1..], b[1..], c[1..]);
    }
  }

  /** Less is being a proper prefix, or having the smaller character where the two first differ. */
  lemma {:induction false} LessIs(a: string, b: string)
    ensures Less(a, b) <==> a < b || exists n :: 0 <= n < |a| && n < |b| && a[..n] == b[..n] && a[n] < b[n]
  {
    if a != "" && b != "" {
      LessIs(a[1..], b[1..]);
      if a[0] == b[0] {
        SameHead(a, b);
      } else {
        assert a[..0] == b[..0];
        assert forall n | 0 < n <= |a| && n <= |b| :: a[..n] == b[..n] ==> a[..n][0] == b[..n][0];
      }
    }
  }

  lemma SameHead(a: string, b: string)
    requires a != "" && b != "" && a[0] == b[0]
    ensures a < b <==> a[1..] < b[1..]
    ensures (exists n :: 0 <= n < |a| && n < |b| && a[..n] == b[..n] && a[n] < b[n])
            <==> exists n :: 0 <= n < |a[1..]| && n < |b[1..]| && a[1..][..n] == b[1..][..n] && a[1..][n] < b[1..][n]
  {
    var s, t := a[1..], b[1..];
    assert a == [a[0]] + s && b == [b[0]] + t;
    forall n | 0 <= n <= |s| && n <= |t| ensures s[..n] == t[..n] <==> a[..n + 1] == b[..n + 1] {
      assert a[..n + 1] == [a[0]] + s[..n] && b[..n + 1] == [b[0]] + t[..n];
      assert s[..n] == a[..n + 1][1..] && t[..n] == b[..n + 1][1..];
    }
    if n :| 0 <= n < |a| && n < |b| && a[..n] == b[..n] && a[n] < b[n] {
      assert s[..n - 1] == t[..n - 1] && s[n - 1] < t[n - 1];
    }
    if n :| 0 <= n < |s| && n < |t| && s[..n] == t[..n] && s[n] < t[n] {
      assert a[..n + 1] == b[..n + 1] && a[n + 1] < b[n + 1];
    }
  }

  lemma ContainsIs(s: string, part: string)
    ensures Contains(s, part) <==> exists x, y :: s == x + part + y
  {
    if Contains(s, part) {
      var i :| 0 <= i <= |s| && part <= s[i..];
      assert s == s[..i] + part + s[i + |part|..];
    }
    if x, y :| s == x + part + y {
      assert part <= s[|x|..];
    }
  }

  /** A present value meets gt if the condition's is a proper prefix of it, or has less where they first differ. */
  lemma GreaterIs(data: Data, field: string, c: string)
    requires field in data
    ensures var v := data[field];
            Meets(data, Condition(field, "gt", c))
            <==> c < v || exists n :: 0 <= n < |v| && n < |c| && v[..n] == c[..n] && v[n] > c[n]
  {
    OrderSplits(data[field], c);
    LessIs(c, data[field]);
  }

  lemma SmallerIs(data: Data, field: string, c: string)
    requires field in data
    ensures var v := data[field];
            Meets(data, Condition(field, "lt", c))
            <==> v < c || exists n :: 0 <= n < |v| && n < |c| && v[..n] == c[..n] && v[n] < c[n]
  {
    OrderSplits(data[field], c);
    LessIs(data[field], c);
  }

  /** The other operators; an unknown one selects nothing, and without the field only ne selects. */
  lemma OthersAre(data: Data, field: string, op: string, c: string)
    ensures field !in data ==> (Meets(data, Condition(field, op, c)) <==> op == "ne")
    ensures field in data ==>
              && (Meets(data, Condition(field, "eq", c)) <==> data[field] == c)
              && (Meets(data, Condition(field, "ne", c)) <==> data[field] != c)
              && (Meets(data, Condition(field, "contains", c)) <==> exists x, y :: data[field] == x + c + y)
              && (op !in ["eq", "ne", "gt", "lt", "contains"] ==> !Meets(data, Condition(field, op, c)))
  {
    hide Contains;
    if field in data {
      ContainsIs(data[field], c);
      assert c == "" ==> data[field] == data[field] + c + "";
    }
  }

  /** A query under construction. */
  class Query {
    var conditions: seq<Condition>
    var limit: int
    var skip: int

    constructor ()
      ensures conditions == [] && limit == 0 && skip == 0
    {
      conditions, limit, skip := [], 0, 0;
    }

    method Where(field: string, op: string, value: string)
      modifies `conditions
      ensures conditions == old(conditions) + [Condition(field, op, value)]
    {
      conditions := conditions + [Condition(field, op, value)];
    }

    method Limit(n: int)
      modifies `limit
      ensures limit == n
    {
      limit := n;
    }

    method Skip(n: int)
      modifies `skip
      ensures skip == n
    {
      skip := n;
    }
  }
}
