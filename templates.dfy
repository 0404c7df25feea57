/** The wrapper code around the generated constant, one pair of strings per
    Rollup output format and export mode (`getJsTemplate`). */
module Templates {
  import opened Text

  datatype Format = Cjs | Es | Amd | Umd | System | Iife

  datatype Exports = Named | Default

  /** The code written before and after the accumulated statements. */
  datatype JsTemplate = JsTemplate(codeBegin: string, codeEnd: string)

  /** The declaration of the accumulator `_<constName>`, initially empty. */
  function AccumulatorInit(constName: string): string {
    "var _" + constName + "=\"\";"
  }

  /** The code before the accumulator's declaration, per format and export mode. */
  function Opening(format: Format, exports: Exports, constName: string): string {
    var c := constName;
    match format
    case Cjs =>
      if exports == Named then "\"use strict\";Object.defineProperty(exports,\"__esModule\",{value:!0});"
      else "\"use strict\";"
    case Es => ""
    case Amd =>
      if exports == Named then "define([\"exports\"],function(exports){\"use strict\";"
      else "define(function(){\"use strict\";"
    case Umd =>
      if exports == Named then
        "(function(global,factory){typeof exports===\"object\"&&typeof module!==\"undefined\"?factory(exports)"
        + ":typeof define===\"function\"&&define.amd?define([\"exports\"],factory)"
        + ":((global=typeof globalThis!==\"undefined\"?globalThis:global||self),factory((global."
        + c + "={})));})(this,function(exports){\"use strict\";"
      else
        "(function(global,factory){typeof exports===\"object\"&&typeof module!==\"undefined\"?(module.exports=factory())"
        + ":typeof define===\"function\"&&define.amd?define(factory)"
        + ":((global=typeof globalThis!==\"undefined\"?globalThis:global||self),(global."
        + c + "=factory()));})(this,function(){\"use strict\";"
    case System => "System.register([],function(exports){\"use strict\";return{execute:function(){"
    case Iife =>
      if exports == Named then "var " + c + "=(function(exports){\"use strict\";"
      else "var " + c + "=(function(){\"use strict\";"
  }

  /** The code after `var <constName>=`, per format and export mode. */
  function Closing(format: Format, exports: Exports, constName: string): string {
    var c := constName;
    var esModule := "Object.defineProperty(exports,\"__esModule\",{value:!0});";
    match format
    case Cjs =>
      if exports == Named then "_" + c + ";exports[\"default\"]=" + c + ";"
      else "_" + c + ";module.exports=" + c + ";"
    case Es => "_" + c + ";export default " + c + ";"
    case Amd =>
      if exports == Named then "_" + c + ";exports[\"default\"]=" + c + ";" + esModule + "});"
      else "_" + c + ";return " + c + ";});"
    case Umd =>
      if exports == Named then "_" + c + ";exports[\"default\"]=" + c + ";" + esModule + "});"
      else "_" + c + ";return " + c + ";});"
    case System => "exports(\"default\",_" + c + ");},};});"
    case Iife =>
      if exports == Named then "_" + c + ";exports[\"default\"]=" + c + ";" + esModule + "return exports;})({});"
      else "_" + c + ";return " + c + ";})();"
  }

  /** `getJsTemplate(format, exports, constName)`. Each of the source's 12
      pairs of template literals is rebuilt here from three parts that hold
      its characters in order: `codeBegin` is `Opening` followed by
      `AccumulatorInit`, and `codeEnd` is `var <constName>=` followed by
      `Closing`. Every source `codeBegin` ends with `var _${constName}="";`
      and every source `codeEnd` starts with `var ${constName}=`, so these
      parts are cut exactly there. The opening code ends with the empty
      accumulator, so the statements placed after it extend that
      accumulator, and the closing code starts by declaring the constant. */
  function GetJsTemplate(format: Format, exports: Exports, constName: string): (t: JsTemplate)
    ensures EndsWith(t.codeBegin, AccumulatorInit(constName))
    ensures StartsWith(t.codeEnd, "var " + constName + "=")
  {
    var opening := Opening(format, exports, constName);
    var closing := Closing(format, exports, constName);
    EndsWithAppended(opening, AccumulatorInit(constName));
    StartsWithAppended("var " + constName + "=", closing);
    JsTemplate(opening + AccumulatorInit(constName), "var " + constName + "=" + closing)
  }

  /** The export mode only matters for the CommonJS, AMD, UMD and IIFE
      formats; for those the closing code differs between the two modes. */
  lemma ExportsIgnored(format: Format, constName: string)
    ensures format == Es || format == System <==>
      GetJsTemplate(format, Named, constName) == GetJsTemplate(format, Default, constName)
  {
    if format == Cjs || format == Iife {
      ClosingDiffersCjsIife(format, constName);
    } else if format == Amd || format == Umd {
      ClosingDiffersAmdUmd(format, constName);
    }
    if format != Es && format != System {
      var tn := GetJsTemplate(format, Named, constName);
      var td := GetJsTemplate(format, Default, constName);
      assert |tn.codeEnd| != |td.codeEnd|;
    }
  }

  lemma ClosingDiffersCjsIife(format: Format, c: string)
    requires format == Cjs || format == Iife
    ensures |Closing(format, Named, c)| != |Closing(format, Default, c)|
  {
    var n := Closing(format, Named, c);
    var d := Closing(format, Default, c);
    if format == Cjs {
      assert |n| - 2 * |c| == 22 && |d| - 2 * |c| == 18;
    } else {
      assert |n| - 2 * |c| == 99 && |d| - 2 * |c| == 15;
    }
  }

  lemma ClosingDiffersAmdUmd(format: Format, c: string)
    requires format == Amd || format == Umd
    ensures |Closing(format, Named, c)| != |Closing(format, Default, c)|
  {
    var n := Closing(format, Named, c);
    var d := Closing(format, Default, c);
    assert |n| - 2 * |c| == 80 && |d| - 2 * |c| == 13;
  }
}
