/**
 * The fixed enrichment table that maps a barcode to base product fields,
 * with a generic fallback for barcodes it does not list.
 */
module Enrichment {

  datatype ProductInfo = ProductInfo(name: string, manufacturer: string, category: string)

  const MockDb: map<string, ProductInfo> := map[
    "8901063010805" := ProductInfo("Whole Wheat Bread", "Healthy Bakes Co.", "Food & Beverages"),
    "012345678905" := ProductInfo("Sparkle Soda 330ml", "FizzCraft Beverages", "Beverages"),
    "9780306406157" := ProductInfo("Sustainable Living Guide", "EcoPrint Publishers", "Books & Media"),
    "4901234567894" := ProductInfo("Bamboo Toothbrush 2-Pack", "GreenSmile", "Personal Care"),
    "0012345678905" := ProductInfo("Oak Side Table", "HomeCraft Furnishings", "Furniture")
  ]

  const Fallback := ProductInfo("Product", "Unknown Manufacturer", "General Merchandise")

  /** Exact-match lookup; any barcode not in the table gets the fallback. */
  function Lookup(code: string): (p: ProductInfo)
    ensures code in MockDb ==> p == MockDb[code]
    ensures p == Fallback <==> code !in MockDb
  {
    if code in MockDb then MockDb[code] else Fallback
  }

  /** The fallback is returned exactly for the barcodes the table does not list. */
  lemma LookupFallbackExactly(code: string)
    ensures Lookup(code) == Fallback <==>
      code != "8901063010805" && code != "012345678905" && code != "9780306406157"
      && code != "4901234567894" && code != "0012345678905"
  {
    assert MockDb.Keys == {"8901063010805", "012345678905", "9780306406157", "4901234567894", "0012345678905"};
  }

  /** Each listed barcode gets its own entry. */
  lemma LookupListedCodes()
    ensures Lookup("8901063010805") == ProductInfo("Whole Wheat Bread", "Healthy Bakes Co.", "Food & Beverages")
    ensures Lookup("012345678905") == ProductInfo("Sparkle Soda 330ml", "FizzCraft Beverages", "Beverages")
    ensures Lookup("9780306406157") == ProductInfo("Sustainable Living Guide", "EcoPrint Publishers", "Books & Media")
    ensures Lookup("4901234567894") == ProductInfo("Bamboo Toothbrush 2-Pack", "GreenSmile", "Personal Care")
    ensures Lookup("0012345678905") == ProductInfo("Oak Side Table", "HomeCraft Furnishings", "Furniture")
  {
  }

  /** Matching is exact: an unlisted code, or a listed one with extra characters, falls back. */
  lemma LookupUnlistedCodes()
    ensures Lookup("0000000000000") == Fallback
    ensures Lookup("8901063010805 ") == Fallback
    ensures Lookup("12345678905") == Fallback
  {
    LookupFallbackExactly("0000000000000");
    LookupFallbackExactly("8901063010805 ");
    LookupFallbackExactly("12345678905");
  }
}
