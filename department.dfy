/**
 * The department entity: a record of four nullable fields (id, name,
 * address, code). `Dept` is the record as a value, the form in which the
 * store keeps it; `Department` is the mutable entity object whose setters
 * overwrite one field in place.
 */
module Entity {
  import opened Wrappers

  datatype Dept = Dept(id: Option<int>, name: Option<string>, address: Option<string>, code: Option<string>)

  /** The empty (all-null) record. */
  const Unset := Dept(None, None, None, None)

  class Department {
    var id: Option<int>
    var name: Option<string>
    var address: Option<string>
    var code: Option<string>

    /** The entity's current field values, as a record. */
    function Value(): Dept
      reads this
    {
      Dept(id, name, address, code)
    }

    /** The no-argument constructor: every field is left null. */
    constructor Empty()
      ensures Value() == Unset
    {
      id, name, address, code := None, None, None, None;
    }

    /** The all-arguments constructor: each argument lands in its own field. */
    constructor (id: Option<int>, name: Option<string>, address: Option<string>, code: Option<string>)
      ensures GetId() == id && GetName() == name && GetAddress() == address && GetCode() == code
    {
      this.id, this.name, this.address, this.code := id, name, address, code;
    }

    function GetId(): Option<int> reads this { id }
    function GetName(): Option<string> reads this { name }
    function GetAddress(): Option<string> reads this { address }
    function GetCode(): Option<string> reads this { code }

    method SetId(v: Option<int>)
      modifies this
      ensures Value() == old(Value()).(id := v)
    {
      id := v;
    }

    method SetName(v: Option<string>)
      modifies this
      ensures Value() == old(Value()).(name := v)
    {
      name := v;
    }

    method SetAddress(v: Option<string>)
      modifies this
      ensures Value() == old(Value()).(address := v)
    {
      address := v;
    }

    method SetCode(v: Option<string>)
      modifies this
      ensures Value() == old(Value()).(code := v)
    {
      code := v;
    }
  }

  /**
   * A setter followed by the matching getter gives back the value set, and
   * the other three getters keep what they returned before.
   */
  method SetThenGet(d: Department, n: Option<string>, a: Option<string>, c: Option<string>, i: Option<int>)
    modifies d
    ensures d.GetId() == i && d.GetName() == n && d.GetAddress() == a && d.GetCode() == c
  {
    d.SetName(n);
    assert d.GetId() == old(d.GetId()) && d.GetAddress() == old(d.GetAddress());
    d.SetAddress(a);
    assert d.GetName() == n;
    d.SetCode(c);
    assert d.GetName() == n && d.GetAddress() == a;
    d.SetId(i);
  }

  /** String.trim(): drops every leading and trailing char up to ' '. */
  function JavaTrim(s: string): string {
    TrimEnd(TrimStart(s))
  }

  function TrimStart(s: string): string
    decreases |s|
  {
    if |s| > 0 && s[0] <= ' ' then TrimStart(s[1..]) else s
  }

  function TrimEnd(s: string): string
    decreases |s|
  {
    if |s| > 0 && s[|s| - 1] <= ' ' then TrimEnd(s[..|s| - 1]) else s
  }

  /** Every char of the string is one that trim() strips. */
  predicate AllTrimmable(s: string) {
    forall i :: 0 <= i < |s| ==> s[i] <= ' '
  }

  lemma {:induction false} TrimStartEmpty(s: string)
    ensures TrimStart(s) == [] <==> AllTrimmable(s)
    decreases |s|
  {
    if |s| > 0 && s[0] <= ' ' {
      TrimStartEmpty(s[1..]);
      assert AllTrimmable(s) <==> AllTrimmable(s[1..]) by {
        if AllTrimmable(s[1..]) {
          forall i | 0 <= i < |s| ensures s[i] <= ' ' {
            if i > 0 { assert s[i] == s[1..][i - 1]; }
          }
        }
      }
    }
  }

  lemma {:induction false} TrimEndEmpty(s: string)
    ensures TrimEnd(s) == [] <==> AllTrimmable(s)
    decreases |s|
  {
    if |s| > 0 && s[|s| - 1] <= ' ' {
      var front := s[..|s| - 1];
      TrimEndEmpty(front);
      assert AllTrimmable(s) <==> AllTrimmable(front) by {
        if AllTrimmable(front) {
          forall i | 0 <= i < |s| ensures s[i] <= ' ' {
            if i < |s| - 1 { assert s[i] == front[i]; }
          }
        }
      }
    }
  }

  /** What TrimStart keeps starts with a char trim() does not strip. */
  lemma {:induction false} TrimStartFront(s: string)
    ensures |TrimStart(s)| > 0 ==> TrimStart(s)[0] > ' '
    decreases |s|
  {
    if |s| > 0 && s[0] <= ' ' {
      TrimStartFront(s[1..]);
    }
  }

  /**
   * Hibernate's @NotBlank: not null, and something other than the
   * characters that String.trim() strips (every char up to ' ').
   */
  predicate NotBlank(s: Option<string>) {
    s.Some? && exists i :: 0 <= i < |s.value| && s.value[i] > ' '
  }

  /** NotBlank agrees with the validator's test `trim().length() > 0`. */
  lemma NotBlankIsTrimNonEmpty(s: string)
    ensures NotBlank(Some(s)) <==> |JavaTrim(s)| > 0
  {
    TrimStartEmpty(s);
    TrimStartFront(s);
    TrimEndEmpty(TrimStart(s));
    var t := TrimStart(s);
    if |t| > 0 {
      assert !AllTrimmable(t) by { assert t[0] > ' '; }
    }
    assert NotBlank(Some(s)) <==> !AllTrimmable(s) by {
      if !AllTrimmable(s) {
        var i :| 0 <= i < |s| && !(s[i] <= ' ');
        assert s[i] > ' ';
      }
    }
  }

  /**
   * Java's String.length(): UTF-16 code units, so a char outside the Basic
   * Multilingual Plane (above U+FFFF) counts twice.
   */
  function Utf16Length(s: string): (n: nat)
    ensures |s| <= n <= 2 * |s|
    decreases |s|
  {
    if |s| == 0 then 0
    else Utf16Length(s[..|s| - 1]) + (if s[|s| - 1] as int > 0xFFFF then 2 else 1)
  }

  lemma {:induction false} Utf16LengthSupplementary(s: string)
    requires forall i :: 0 <= i < |s| ==> s[i] as int > 0xFFFF
    ensures Utf16Length(s) == 2 * |s|
    decreases |s|
  {
    if |s| > 0 {
      Utf16LengthSupplementary(s[..|s| - 1]);
    }
  }

  /** @Length(min = 1, max = 200): null passes; otherwise 1 to 200 UTF-16 units. */
  predicate LengthInRange(s: Option<string>) {
    s.None? || 1 <= Utf16Length(s.value) <= 200
  }

  /** An address of more than 100 chars, all outside the BMP, is too long. */
  lemma SupplementaryAddressTooLong(s: string)
    requires |s| > 100
    requires forall i :: 0 <= i < |s| ==> s[i] as int > 0xFFFF
    ensures !LengthInRange(Some(s))
  {
    Utf16LengthSupplementary(s);
  }

  /** The declared bean-validation constraints on a record. */
  predicate MeetsConstraints(d: Dept) {
    NotBlank(d.name) && LengthInRange(d.address)
  }

  /** A whitespace-only name is blank; a name with any visible char is not. */
  lemma NotBlankExamples()
    ensures !NotBlank(Some(" \t"))
    ensures !NotBlank(Some(""))
    ensures !NotBlank(None)
    ensures NotBlank(Some(" CS"))
  {
    assert " CS"[1] > ' ';
  }
}
