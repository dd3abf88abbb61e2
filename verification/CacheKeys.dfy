/** The keys of the result cache (pondapi/result_cache.py, make_key), up to the hash of the text,
    which is taken to be injective. */
module CacheKeys {

  function Digit(d: nat): char
    requires d < 10
  {
    "0123456789"[d]
  }

  /** str(n). */
  function Decimal(n: nat): string {
    if n < 10 then [Digit(n)] else Decimal(n / 10) + [Digit(n % 10)]
  }

  /** What make_key hashes: the statement, a NUL, and "tenant:version". */
  function RawKey(sql: string, tenant: string, version: nat): string {
    sql + ['\0'] + (tenant + [':'] + Decimal(version))
  }

  lemma {:induction false} DecimalDigits(n: nat, c: char)
    requires c in Decimal(n)
    ensures '0' <= c <= '9'
  {
    if n >= 10 && c in Decimal(n / 10) {
      DecimalDigits(n / 10, c);
    }
  }

  lemma {:induction false} DecimalInjective(m: nat, n: nat)
    requires Decimal(m) == Decimal(n)
    ensures m == n
  {
    var s, t := Decimal(m), Decimal(n);
    assert s[|s| - 1] == Digit(m % 10) && t[|t| - 1] == Digit(n % 10);
    if m >= 10 && n >= 10 {
      assert s[..|s| - 1] == Decimal(m / 10) && t[..|t| - 1] == Decimal(n / 10);
      DecimalInjective(m / 10, n / 10);
    } else {
      DecimalLonger(m);
      DecimalLonger(n);
    }
  }

  lemma {:induction false} DecimalLonger(n: nat)
    ensures |Decimal(n)| >= 1 && (n >= 10 ==> |Decimal(n)| >= 2)
  {
  }

  /** A string splits in one way at the last occurrence of a separator. */
  lemma SplitsOnce(a: string, b: string, a': string, b': string, c: char)
    requires a + [c] + b == a' + [c] + b'
    requires c !in b && c !in b'
    ensures a == a' && b == b'
  {
    var s := a + [c] + b;
    assert s[|a|] == c && s[|a'|] == c;
    assert |a| == |a'|;
    assert a == s[..|a|] && a' == s[..|a'|] && b == s[|a| + 1..] && b' == s[|a'| + 1..];
  }

  lemma {:induction false} SameKey(sql: string, tenant: string, version: nat,
                                   sql': string, tenant': string, version': nat)
    requires RawKey(sql, tenant, version) == RawKey(sql', tenant', version')
    ensures version == version' && sql + ['\0'] + tenant == sql' + ['\0'] + tenant'
  {
    forall c | c in Decimal(version) || c in Decimal(version')
      ensures '0' <= c <= '9'
    {
      if c in Decimal(version) {
        DecimalDigits(version, c);
      } else {
        DecimalDigits(version', c);
      }
    }
    Regrouped(sql, tenant, version);
    Regrouped(sql', tenant', version');
    SplitsOnce(sql + ['\0'] + tenant, Decimal(version), sql' + ['\0'] + tenant', Decimal(version'), ':');
    DecimalInjective(version, version');
  }

  lemma Regrouped(sql: string, tenant: string, version: nat)
    ensures RawKey(sql, tenant, version) == (sql + ['\0'] + tenant) + [':'] + Decimal(version)
  {
  }

  /** Equal keys mean the same statement, tenant and version, for tenants without a NUL; the
      statement may hold any characters. */
  lemma {:induction false} RawKeyInjective(sql: string, tenant: string, version: nat,
                                           sql': string, tenant': string, version': nat)
    requires '\0' !in tenant && '\0' !in tenant'
    requires RawKey(sql, tenant, version) == RawKey(sql', tenant', version')
    ensures sql == sql' && tenant == tenant' && version == version'
  {
    SameKey(sql, tenant, version, sql', tenant', version');
    SplitsOnce(sql, tenant, sql', tenant', '\0');
  }

  /** One tenant is the end of the other, after a NUL. */
  ghost predicate EndsIn(tenant: string, end: string) {
    exists start :: tenant == start + ['\0'] + end
  }

  lemma {:induction false} LongerEndsIn(sql: string, tenant: string, sql': string, tenant': string)
    requires sql + ['\0'] + tenant == sql' + ['\0'] + tenant' && |tenant| > |tenant'|
    ensures EndsIn(tenant, tenant')
  {
    var whole := sql + ['\0'] + tenant;
    var n := |tenant| - |tenant'| - 1;
    assert tenant == whole[|whole| - |tenant|..];
    assert tenant' == whole[|whole| - |tenant'|..];
    assert whole[|whole| - |tenant'| - 1] == '\0';
    assert tenant == tenant[..n] + ['\0'] + tenant[n + 1..];
  }

  lemma SameLengthSame(sql: string, tenant: string, sql': string, tenant': string)
    requires sql + ['\0'] + tenant == sql' + ['\0'] + tenant' && |tenant| == |tenant'|
    ensures sql == sql' && tenant == tenant'
  {
    var whole := sql + ['\0'] + tenant;
    assert sql == whole[..|sql|] && sql' == whole[..|sql|];
    assert tenant == whole[|sql| + 1..] && tenant' == whole[|sql| + 1..];
  }

  lemma {:induction false} ApartIsInjective(sql: string, tenant: string, version: nat,
                                            sql': string, tenant': string, version': nat)
    requires RawKey(sql, tenant, version) == RawKey(sql', tenant', version')
    requires !EndsIn(tenant, tenant') && !EndsIn(tenant', tenant)
    ensures sql == sql' && tenant == tenant' && version == version'
  {
    SameKey(sql, tenant, version, sql', tenant', version');
    if |tenant| > |tenant'| {
      LongerEndsIn(sql, tenant, sql', tenant');
    } else if |tenant| < |tenant'| {
      LongerEndsIn(sql', tenant', sql, tenant);
    } else {
      SameLengthSame(sql, tenant, sql', tenant');
    }
  }

  lemma NulCollides(start: string, end: string)
    ensures RawKey("", start + ['\0'] + end, 0) == RawKey(['\0'] + start, end, 0)
  {
  }

  /** Two tenants can ever share a key, for different requests, exactly when one of them is the end
      of the other after a NUL. */
  lemma {:induction false} KeysCollideIff(tenant: string, tenant': string)
    ensures (exists sql, version, sql', version' ::
              RawKey(sql, tenant, version) == RawKey(sql', tenant', version')
              && (sql, tenant, version) != (sql', tenant', version'))
      <==> EndsIn(tenant, tenant') || EndsIn(tenant', tenant)
  {
    forall sql, version, sql', version'
      | RawKey(sql, tenant, version) == RawKey(sql', tenant', version')
        && (sql, tenant, version) != (sql', tenant', version')
      ensures EndsIn(tenant, tenant') || EndsIn(tenant', tenant)
    {
      if !EndsIn(tenant, tenant') && !EndsIn(tenant', tenant) {
        ApartIsInjective(sql, tenant, version, sql', tenant', version');
      }
    }
    if start :| tenant == start + ['\0'] + tenant' {
      NulCollides(start, tenant');
      assert ("", tenant, 0) != (['\0'] + start, tenant', 0);
    }
    if start :| tenant' == start + ['\0'] + tenant {
      NulCollides(start, tenant);
      assert (['\0'] + start, tenant, 0) != ("", tenant', 0);
    }
  }

  /** What a key stands for. */
  datatype Key = Key(sql: string, tenant: string, version: nat)

  /** The text of the key. */
  function Raw(key: Key): string {
    RawKey(key.sql, key.tenant, key.version)
  }

  lemma SameRaw(key: Key, key': Key)
    requires Raw(key) == Raw(key')
    requires !EndsIn(key.tenant, key'.tenant) && !EndsIn(key'.tenant, key.tenant)
    ensures key == key'
  {
    ApartIsInjective(key.sql, key.tenant, key.version, key'.sql, key'.tenant, key'.version);
  }

  /** A tenant that ends in another one gets that one's keys. */
  lemma ClashingKey(start: string, tenant: string, sql: string, version: nat)
    ensures Raw(Key(sql, start + ['\0'] + tenant, version)) == Raw(Key(sql + ['\0'] + start, tenant, version))
  {
  }
}
