/** client/src/pages/ClassSessionsPage.jsx: the two helpers that convert between the MySQL
    DATETIME text the server sends ("YYYY-MM-DD HH:MM:SS") and the value of an
    <input type="datetime-local"> ("YYYY-MM-DDTHH:MM"). A value is text, absent (None: null
    or undefined) or the empty string; the last two are falsy. */
module ClassSessionsPage {
  import opened Schema
  import opened JsString

  predicate Given(v: Option<string>) {
    v.Some? && v.value != ""
  }

  predicate Digit(c: char) {
    '0' <= c <= '9'
  }

  /** The value of a datetime-local input: "YYYY-MM-DDTHH:MM". */
  predicate InputDateTime(x: string) {
    && |x| == 16
    && (forall i :: 0 <= i < 16 && i !in {4, 7, 10, 13} ==> Digit(x[i]))
    && x[4] == '-' && x[7] == '-' && x[10] == 'T' && x[13] == ':'
  }

  /** MySQL DATETIME text: "YYYY-MM-DD HH:MM:SS". */
  predicate SqlDateTime(v: string) {
    && |v| == 19
    && (forall i :: 0 <= i < 19 && i !in {4, 7, 10, 13, 16} ==> Digit(v[i]))
    && v[4] == '-' && v[7] == '-' && v[10] == ' ' && v[13] == ':' && v[16] == ':'
  }

  /** toInputDateTime (ClassSessionsPage.jsx:8-14): '' for a falsy value; otherwise the first
      space becomes 'T' and at most the first 16 characters are kept. */
  function ToInputDateTime(value: Option<string>): (r: string)
    ensures !Given(value) ==> r == ""
    ensures |r| <= 16
    ensures Given(value) ==> |r| == if |value.value| < 16 then |value.value| else 16
    ensures Given(value) ==> forall i :: 0 <= i < |r| ==>
      r[i] == if i == IndexOf(value.value, ' ') then 'T' else value.value[i]
  {
    if !Given(value) then ""
    else Slice(ReplaceFirst(value.value, ' ', 'T'), 16)
  }

  /** fromInputDateTime (ClassSessionsPage.jsx:16-20): null for a falsy value; otherwise the
      first 'T' becomes a space and ":00" is appended, three characters more than the input. */
  function FromInputDateTime(value: Option<string>): (r: Option<string>)
    ensures !Given(value) <==> r == None
    ensures Given(value) ==> |r.value| == |value.value| + 3
    ensures Given(value) ==> r.value[|value.value|..] == ":00"
    ensures Given(value) ==> forall i :: 0 <= i < |value.value| ==>
      r.value[i] == if i == IndexOf(value.value, 'T') then ' ' else value.value[i]
  {
    if !Given(value) then None
    else Some(ReplaceFirst(value.value, 'T', ' ') + ":00")
  }

  /** Sixteen characters without a space (every datetime-local value among them) come back
      unchanged from a save followed by an edit. */
  lemma RoundTrip(x: string)
    requires |x| == 16 && ' ' !in x
    ensures ToInputDateTime(FromInputDateTime(Some(x))) == x
  {
    var k := IndexOf(x, 'T');
    var saved := FromInputDateTime(Some(x)).value;
    var r := ToInputDateTime(Some(saved));
    if k < |x| {
      assert forall i :: 0 <= i < k ==> saved[i] != ' ' by {
        forall i | 0 <= i < k ensures saved[i] != ' ' {
          assert saved[i] == x[i] && x[i] in x;
        }
      }
      assert saved[k] == ' ';
      IndexOfIs(saved, ' ', k);
    } else {
      assert forall i :: 0 <= i < |saved| ==> saved[i] != ' ' by {
        forall i | 0 <= i < |saved| ensures saved[i] != ' ' {
          if i < |x| {
            assert saved[i] == x[i] && x[i] in x;
          } else {
            assert saved[i] == ":00"[i - |x|];
          }
        }
      }
      IndexOfIs(saved, ' ', |saved|);
    }
    assert |r| == 16;
    forall i | 0 <= i < 16 ensures r[i] == x[i] {
      if i == k {
        assert r[i] == 'T';
      } else {
        assert r[i] == saved[i];
      }
    }
  }

  /** The round trip on the datetime-local format itself. */
  lemma InputRoundTrip(x: string)
    requires InputDateTime(x)
    ensures ToInputDateTime(FromInputDateTime(Some(x))) == x
  {
    forall i | 0 <= i < |x| ensures x[i] != ' ' {
      if i !in {4, 7, 10, 13} {
        assert Digit(x[i]);
      }
    }
    RoundTrip(x);
  }

  /** Shown in the edit form, a stored DATETIME loses its seconds and its space becomes 'T'. */
  lemma ShownForEdit(v: string)
    requires SqlDateTime(v)
    ensures ToInputDateTime(Some(v)) == v[..10] + "T" + v[11..16]
  {
    forall i | 0 <= i < 10 ensures v[i] != ' ' {
      if i != 4 && i != 7 {
        assert Digit(v[i]);
      }
    }
    IndexOfIs(v, ' ', 10);
    var shown := ToInputDateTime(Some(v));
    assert |shown| == 16;
    forall i | 0 <= i < 16 ensures shown[i] == (v[..10] + "T" + v[11..16])[i] {
    }
  }

  /** Editing and saving a stored DATETIME without touching it keeps the date, hours and
      minutes and resets the seconds to "00". */
  lemma SecondsReset(v: string)
    requires SqlDateTime(v)
    ensures FromInputDateTime(Some(ToInputDateTime(Some(v)))) == Some(v[..17] + "00")
  {
    ShownForEdit(v);
    var shown := v[..10] + "T" + v[11..16];
    forall i | 0 <= i < 10 ensures shown[i] != 'T' {
      if i != 4 && i != 7 {
        assert Digit(v[i]);
      }
    }
    IndexOfIs(shown, 'T', 10);
    var saved := FromInputDateTime(Some(shown)).value;
    assert |saved| == 19;
    forall i | 0 <= i < 19 ensures saved[i] == (v[..17] + "00")[i] {
      if i < 16 {
        assert saved[i] == if i == 10 then ' ' else shown[i];
      } else {
        assert saved[i] == ":00"[i - 16];
      }
    }
    assert saved == v[..17] + "00";
  }
}
