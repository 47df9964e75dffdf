/**
 * `sanitize_post_types` (custom-page-styles.php:219-235): the settings
 * callback that keeps, in submitted order, each key that names a registered
 * post type once passed through `sanitize_key`.
 */
module PostTypes {

  import opened Wrappers

  /**
   * The kept keys of `submitted`, in order; `sanitizeKey` stands for
   * `sanitize_key` and `registered` for `get_post_types()`.
   */
  function KeepRegistered(sanitizeKey: string -> string, registered: set<string>, submitted: seq<string>): (kept: seq<string>)
    ensures |kept| <= |submitted|
    ensures forall t :: t in kept ==> t in registered
  {
    if submitted == [] then []
    else
      var key := sanitizeKey(submitted[|submitted| - 1]);
      KeepRegistered(sanitizeKey, registered, submitted[..|submitted| - 1]) + (if key in registered then [key] else [])
  }

  /** A key is kept exactly when some submitted entry sanitises to it and it is registered. */
  lemma {:induction false} KeepRegisteredMembership(sanitizeKey: string -> string, registered: set<string>, submitted: seq<string>, t: string)
    ensures t in KeepRegistered(sanitizeKey, registered, submitted) <==>
            t in registered && exists i :: 0 <= i < |submitted| && sanitizeKey(submitted[i]) == t
  {
    if submitted != [] {
      var front := submitted[..|submitted| - 1];
      KeepRegisteredMembership(sanitizeKey, registered, front, t);
      if exists i :: 0 <= i < |submitted| && sanitizeKey(submitted[i]) == t {
        var i :| 0 <= i < |submitted| && sanitizeKey(submitted[i]) == t;
        if i < |front| {
          assert front[i] == submitted[i];
        }
      }
      forall i | 0 <= i < |front| ensures front[i] == submitted[i] {
      }
    }
  }

  /** Filtering commutes with concatenation, so the submitted order is kept. */
  lemma {:induction false} KeepRegisteredConcat(sanitizeKey: string -> string, registered: set<string>, a: seq<string>, b: seq<string>)
    ensures KeepRegistered(sanitizeKey, registered, a + b) ==
            KeepRegistered(sanitizeKey, registered, a) + KeepRegistered(sanitizeKey, registered, b)
    decreases |b|
  {
    if b == [] {
      assert a + b == a;
    } else {
      var front := b[..|b| - 1];
      assert (a + b)[..|a + b| - 1] == a + front;
      KeepRegisteredConcat(sanitizeKey, registered, a, front);
    }
  }

  /**
   * Saving the saved list again changes nothing, as long as `sanitize_key`
   * leaves every registered name as it is.
   */
  lemma {:induction false} KeepRegisteredIdempotent(sanitizeKey: string -> string, registered: set<string>, submitted: seq<string>)
    requires forall t :: t in registered ==> sanitizeKey(t) == t
    ensures var kept := KeepRegistered(sanitizeKey, registered, submitted);
            KeepRegistered(sanitizeKey, registered, kept) == kept
  {
    if submitted != [] {
      var front := submitted[..|submitted| - 1];
      var keptFront := KeepRegistered(sanitizeKey, registered, front);
      KeepRegisteredIdempotent(sanitizeKey, registered, front);
      var key := sanitizeKey(submitted[|submitted| - 1]);
      var tail := if key in registered then [key] else [];
      KeepRegisteredConcat(sanitizeKey, registered, keptFront, tail);
      if key in registered {
        assert [key][..0] == [];
      }
    }
  }

  /**
   * `sanitize_post_types($post_types)`. `None` stands for a value that is
   * not an array, which gives the empty list.
   */
  method SanitizePostTypes(sanitizeKey: string -> string, postTypes: Option<seq<string>>, registered: set<string>)
    returns (sanitized: seq<string>)
    ensures postTypes.None? ==> sanitized == []
    ensures postTypes.Some? ==> sanitized == KeepRegistered(sanitizeKey, registered, postTypes.value)
    ensures forall t :: t in sanitized ==> t in registered
  {
    if postTypes.None? {
      return [];
    }
    var submitted := postTypes.value;
    sanitized := [];
    for i := 0 to |submitted|
      invariant sanitized == KeepRegistered(sanitizeKey, registered, submitted[..i])
    {
      var postType := sanitizeKey(submitted[i]);
      assert submitted[..i + 1][..i] == submitted[..i];
      if postType in registered {
        sanitized := sanitized + [postType];
      }
    }
    assert submitted[..|submitted|] == submitted;
  }
}
