/** The answer checks of the prompts (index.js:258-263, 309-366, 399-404). Prompting itself
    is outside the model: an answer is rejected with a message and asked again. */
module Prompts {

  datatype Validation = Accepted | Rejected(message: string)

  /** The key prompt accepts exactly the answers of 4 characters. */
  function ValidateKey(value: string): (v: Validation)
    ensures v.Accepted? <==> |value| == 4
    ensures v.Rejected? ==> v.message == "Please enter a 4 character key"
  {
    if |value| == 4 then Accepted else Rejected("Please enter a 4 character key")
  }

  /** The count prompts accept exactly the positive numbers. */
  function ValidateCount(value: int): (v: Validation)
    ensures v.Accepted? <==> value > 0
    ensures v.Rejected? ==> v.message == "Please enter a number greater than 0"
  {
    if value > 0 then Accepted else Rejected("Please enter a number greater than 0")
  }
}
