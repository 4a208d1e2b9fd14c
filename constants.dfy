/**
 * The lookup tables the generators consult: the abstract column types, the value ranges
 * of the integer types, the date formats, the column-name faker dictionary and the lists
 * of column and table names the generators skip.
 */
module Constants {
  import opened Wrappers

  /** The column types the reflector maps vendor types onto. */
  datatype DataType =
    | STRING | TINY_INTEGER | SMALL_INTEGER | MEDIUM_INTEGER | INTEGER | BIG_INTEGER
    | BIT | DECIMAL | JSON | DATE_TIME | DATE | TIME | YEAR | NONE

  predicate IsIntegerType(t: DataType) {
    t in {TINY_INTEGER, SMALL_INTEGER, MEDIUM_INTEGER, INTEGER, BIG_INTEGER}
  }

  predicate IsDateType(t: DataType) {
    t in {DATE_TIME, DATE, TIME, YEAR}
  }

  /** `NumericSize::MAP[$t]['max'] ?? null`: the largest signed value of an integer type. */
  function NumericMax(t: DataType): (r: Option<int>)
    ensures r.Some? <==> IsIntegerType(t)
  {
    match t
    case TINY_INTEGER => Some(127)
    case SMALL_INTEGER => Some(32767)
    case MEDIUM_INTEGER => Some(8388607)
    case INTEGER => Some(2147483647)
    case BIG_INTEGER => Some(9223372036854775807)
    case _ => None
  }

  /** `NumericSize::MAP[$t]['min'] ?? null`: the smallest signed value of an integer type. */
  function NumericMin(t: DataType): (r: Option<int>)
    ensures r.Some? <==> IsIntegerType(t)
  {
    match t
    case TINY_INTEGER => Some(-128)
    case SMALL_INTEGER => Some(-32768)
    case MEDIUM_INTEGER => Some(-8388608)
    case INTEGER => Some(-2147483648)
    case BIG_INTEGER => Some(-9223372036854775808)
    case _ => None
  }

  /** `DateFormat::MAP[$t] ?? null`: the PHP date format of a date type. */
  function DateFormat(t: DataType): (r: Option<string>)
    ensures r.Some? <==> IsDateType(t)
  {
    match t
    case DATE_TIME => Some("Y-m-d H:i:s")
    case DATE => Some("Y-m-d")
    case TIME => Some("H:i:s")
    case YEAR => Some("Y")
    case _ => None
  }

  /** `Faker::COLUMN_NAME_FAKER`: faker expressions chosen by column name alone. */
  const ColumnNameFaker: map<string, string> := map[
    "password" := "bcrypt('123456')",
    "email" := "$this->faker->email()",
    "userName" := "$this->faker->userName()",
    "user_name" := "$this->faker->userName()",
    "domain_name" := "$this->faker->domainName()",
    "domainName" := "$this->faker->domainName()",
    "dns" := "$this->faker->domainName()",
    "url" := "$this->faker->url()",
    "link" := "$this->faker->url()",
    "ipv4" := "$this->faker->ipv4()",
    "ipv6" := "$this->faker->ipv6()",
    "mac_address" := "$this->faker->macAddress()",
    "macAddress" := "$this->faker->macAddress()",
    "user_agent" := "$this->faker->userAgent()",
    "userAgent" := "$this->faker->userAgent()",
    "creditCardType" := "$this->faker->creditCardType()",
    "credit_card_type" := "$this->faker->creditCardType()",
    "creditCardNumber" := "$this->faker->creditCardNumber()",
    "credit_card_number" := "$this->faker->creditCardNumber()",
    "color" := "$this->faker->colorName()",
    "mime" := "$this->faker->mimeType()",
    "fileExtension" := "$this->faker->fileExtension()",
    "file_extension" := "$this->faker->fileExtension()",
    "image" := "$this->faker->imageUrl(640, 480)",
    "file" := "$this->faker->imageUrl(640, 480)",
    "uuid" := "$this->faker->uuid()",
    "md5" := "$this->faker->md5()",
    "sha1" := "$this->faker->sha1()",
    "sha256" := "$this->faker->sha256()",
    "locale" := "$this->faker->locale()",
    "localization" := "$this->faker->locale()",
    "country_code" := "$this->faker->countryCode()",
    "countryCode" := "$this->faker->countryCode()",
    "lang" := "$this->faker->languageCode()",
    "language" := "$this->faker->languageCode()",
    "currency" := "$this->faker->currencyCode()",
    "emoji" := "$this->faker->emoji()",
    "html" := "$this->faker->randomHtml()",
    "name" := "$this->faker->name()",
    "firstName" := "$this->faker->firstName()",
    "first_name" := "$this->faker->firstName()",
    "lastName" := "$this->faker->lastName()",
    "last_name" := "$this->faker->lastName()",
    "state" := "$this->faker->state()",
    "city" := "$this->faker->city()",
    "street" := "$this->faker->streetName()",
    "postcode" := "$this->faker->postcode()",
    "post_code" := "$this->faker->postcode()",
    "address" := "$this->faker->address()",
    "country" := "$this->faker->country()",
    "latitude" := "$this->faker->latitude($min = -90, $max = 90)",
    "lat" := "$this->faker->latitude($min = -90, $max = 90)",
    "longitude" := "$this->faker->longitude($min = -180, $max = 180)",
    "lng" := "$this->faker->longitude($min = -180, $max = 180)",
    "phone" := "$this->faker->e164PhoneNumber()",
    "phoneNumber" := "$this->faker->e164PhoneNumber()",
    "phone_number" := "$this->faker->e164PhoneNumber()",
    "mobileNumber" := "$this->faker->e164PhoneNumber()",
    "mobile_number" := "$this->faker->e164PhoneNumber()"
  ]

  /** Columns left out of form requests, fillable lists and factories. */
  const FormRequestColumns: seq<string> := ["id", "created_at", "updated_at"]
  const ModelFillableColumns: seq<string> := ["id", "created_at", "updated_at"]
  const FactoryColumns: seq<string> := ["id", "created_at", "updated_at"]

  /** Columns left out of API resources. */
  const ResourceColumns: seq<string> := ["updated_at"]

  /** Bookkeeping columns: they do not count against a table being a pivot table. */
  const ExtraColumns: seq<string> := ["id", "created_at", "updated_at", "deleted_at"]

  /** Framework tables the reflector never reads. */
  const IgnoredTables: seq<string> := ["failed_jobs", "migrations", "password_reset_tokens", "personal_access_tokens"]
}
