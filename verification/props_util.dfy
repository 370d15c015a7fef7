/** The typed getters of `PropsUtil`: each looks a key up in a loaded properties table
    and falls back to a default when the key is absent.

    The string converters of `CastUtil` are not part of this model; each getter that
    uses one takes it as a parameter, so nothing is assumed about how it converts. */
module PropsUtil {

  /** A loaded properties file: keys to their raw string values. */
  type Properties = map<string, string>

  /** Java `int` and `long`. */
  newtype Int32 = x: int | -0x8000_0000 <= x < 0x8000_0000
  newtype Int64 = x: int | -0x8000_0000_0000_0000 <= x < 0x8000_0000_0000_0000

  /** The stored value of `key`, or `defaultValue` when the key is absent. */
  function GetStringOr(props: Properties, key: string, defaultValue: string): (value: string)
    ensures key in props ==> value == props[key]
    ensures key !in props ==> value == defaultValue
  {
    if key in props then props[key] else defaultValue
  }

  /** The stored value of `key`, or "" when the key is absent. */
  function GetString(props: Properties, key: string): (value: string)
    ensures value == GetStringOr(props, key, "")
    ensures key !in props ==> value == ""
  {
    GetStringOr(props, key, "")
  }

  /** The stored value of `key` converted by `castInteger`, or `defaultValue` when absent. */
  function GetIntOr(props: Properties, key: string, defaultValue: Int32, castInteger: string -> Int32): (value: Int32)
    ensures key in props ==> value == castInteger(props[key])
    ensures key !in props ==> value == defaultValue
  {
    if key in props then castInteger(props[key]) else defaultValue
  }

  /** The stored value of `key` converted by `castInteger`, or 0 when absent. */
  function GetInt(props: Properties, key: string, castInteger: string -> Int32): (value: Int32)
    ensures value == GetIntOr(props, key, 0, castInteger)
    ensures key !in props ==> value == 0
  {
    GetIntOr(props, key, 0, castInteger)
  }

  /** The stored value of `key` converted by `castLong`, or `defaultValue` when absent. */
  function GetLongOr(props: Properties, key: string, defaultValue: Int64, castLong: string -> Int64): (value: Int64)
    ensures key in props ==> value == castLong(props[key])
    ensures key !in props ==> value == defaultValue
  {
    if key in props then castLong(props[key]) else defaultValue
  }

  /** The stored value of `key` converted by `castLong`, or 0 when absent. */
  function GetLong(props: Properties, key: string, castLong: string -> Int64): (value: Int64)
    ensures value == GetLongOr(props, key, 0, castLong)
    ensures key !in props ==> value == 0
  {
    GetLongOr(props, key, 0, castLong)
  }

  /** The stored value of `key` converted by `castBoolean`, or `defaultValue` when absent. */
  function GetBooleanOr(props: Properties, key: string, defaultValue: bool, castBoolean: string -> bool): (value: bool)
    ensures key in props ==> value == castBoolean(props[key])
    ensures key !in props ==> value == defaultValue
  {
    if key in props then castBoolean(props[key]) else defaultValue
  }

  /** The stored value of `key` converted by `castBoolean`, or false when absent. */
  function GetBoolean(props: Properties, key: string, castBoolean: string -> bool): (value: bool)
    ensures value == GetBooleanOr(props, key, false, castBoolean)
    ensures key !in props ==> !value
  {
    GetBooleanOr(props, key, false, castBoolean)
  }

  /** A getter reads only its own key: setting another key leaves every getter's answer
      for `key` as it was, and setting `key` makes the getters answer from the new value
      whatever the default. */
  lemma LookupIsPerKey(props: Properties, key: string, other: string, v: string, d: string,
                       n: Int32, castInteger: string -> Int32, l: Int64, castLong: string -> Int64,
                       b: bool, castBoolean: string -> bool)
    ensures other != key ==> GetStringOr(props[other := v], key, d) == GetStringOr(props, key, d)
    ensures other != key ==> GetIntOr(props[other := v], key, n, castInteger) == GetIntOr(props, key, n, castInteger)
    ensures other != key ==> GetLongOr(props[other := v], key, l, castLong) == GetLongOr(props, key, l, castLong)
    ensures other != key ==> GetBooleanOr(props[other := v], key, b, castBoolean) == GetBooleanOr(props, key, b, castBoolean)
    ensures GetStringOr(props[key := v], key, d) == v
    ensures GetIntOr(props[key := v], key, n, castInteger) == castInteger(v)
    ensures GetLongOr(props[key := v], key, l, castLong) == castLong(v)
    ensures GetBooleanOr(props[key := v], key, b, castBoolean) == castBoolean(v)
  {
  }
}
